/**
 * `showAlert` of app/static/js/videoPreview.js: the banner's class list chosen
 * from its kind, and the rule that showing one first removes the element that
 * `getElementById("alert")` finds, then puts the new banner first in the body.
 */
module Alerts {
  import opened Dom

  const AlertId := "alert"

  /** The classes every banner carries, before its colour. */
  const BaseClasses := "p-4 rounded mb-4 text-white "

  /** The colour class: "error" is red, "success" green, every other kind blue. */
  function ColourClass(kind: string): (cls: string)
    ensures cls == "bg-red-500" <==> kind == "error"
    ensures cls == "bg-green-500" <==> kind == "success"
    ensures cls == "bg-blue-500" <==> kind != "error" && kind != "success"
  {
    if kind == "error" then "bg-red-500"
    else if kind == "success" then "bg-green-500"
    else "bg-blue-500"
  }

  /** The banner element `showAlert(message, kind)` creates. */
  function Banner(message: string, kind: string): (banner: Element)
    ensures banner.id == AlertId && banner.text == message
    // the base classes, then the colour class
    ensures |banner.className| > |BaseClasses|
    ensures banner.className[..|BaseClasses|] == BaseClasses
    ensures banner.className[|BaseClasses|..] == ColourClass(kind)
  {
    Element(AlertId, BaseClasses + ColourClass(kind), message)
  }

  /** How many elements carry the id "alert". */
  function AlertCount(body: seq<Element>): nat {
    if body == [] then 0
    else (if body[0].id == AlertId then 1 else 0) + AlertCount(body[1..])
  }

  /** The elements that are not banners, in document order. */
  function Others(body: seq<Element>): seq<Element> {
    if body == [] then []
    else (if body[0].id == AlertId then [] else [body[0]]) + Others(body[1..])
  }

  /** `document.getElementById(id)` followed by `remove()`: the first element with that id goes. */
  function RemoveFirstWithId(body: seq<Element>, id: string): (r: seq<Element>)
    ensures |r| == |body| - (if exists k :: 0 <= k < |body| && body[k].id == id then 1 else 0)
    ensures forall e :: e in r ==> e in body
    // the element that goes is the first one with the id
    ensures forall k :: (0 <= k < |body| && body[k].id == id &&
              forall j :: 0 <= j < k ==> body[j].id != id) ==> r == body[..k] + body[k + 1..]
    ensures (forall k :: 0 <= k < |body| ==> body[k].id != id) ==> r == body
  {
    if body == [] then []
    else if body[0].id == id then body[1..]
    else
      var rest := RemoveFirstWithId(body[1..], id);
      forall k | 0 <= k < |body| && body[k].id == id && forall j :: 0 <= j < k ==> body[j].id != id
        ensures [body[0]] + rest == body[..k] + body[k + 1..]
      {
        FirstInTail(body, id, k);
        DropAfterHead(body, k);
      }
      [body[0]] + rest
  }

  /** Past a head without the id, the first holder `k` of the id is `k - 1` in the tail. */
  lemma FirstInTail(body: seq<Element>, id: string, k: nat)
    requires 0 < k < |body| && body[k].id == id
    requires forall j :: 0 <= j < k ==> body[j].id != id
    ensures body[1..][k - 1].id == id
    ensures forall j :: 0 <= j < k - 1 ==> body[1..][j].id != id
  {
    assert forall j :: 0 <= j < k - 1 ==> body[1..][j] == body[j + 1];
  }

  /** Dropping element `k` keeps the head and drops element `k - 1` of the tail. */
  lemma DropAfterHead(body: seq<Element>, k: nat)
    requires 0 < k < |body|
    ensures body[..k] + body[k + 1..] == [body[0]] + (body[1..][..k - 1] + body[1..][k..])
  {
    assert body[..k] == [body[0]] + body[1..][..k - 1];
    assert body[k + 1..] == body[1..][k..];
  }

  lemma {:induction false} RemoveFirstAlert(body: seq<Element>)
    ensures AlertCount(RemoveFirstWithId(body, AlertId)) == if AlertCount(body) == 0 then 0 else AlertCount(body) - 1
    ensures Others(RemoveFirstWithId(body, AlertId)) == Others(body)
  {
    if body != [] && body[0].id != AlertId {
      RemoveFirstAlert(body[1..]);
      var rest := RemoveFirstWithId(body[1..], AlertId);
      assert ([body[0]] + rest)[1..] == rest;
    }
  }

  /** The body after `showAlert(message, kind)`. */
  function WithBanner(body: seq<Element>, message: string, kind: string): (r: seq<Element>)
    ensures r != [] && r[0] == Banner(message, kind)
    // at most one banner before means exactly one after, the new one first;
    // a second stale banner would survive
    ensures AlertCount(r) == if AlertCount(body) == 0 then 1 else AlertCount(body)
    ensures AlertCount(body) <= 1 ==> forall e :: e in r[1..] ==> e.id != AlertId
    // the rest of the page is untouched, in order
    ensures Others(r) == Others(body)
  {
    var rest := RemoveFirstWithId(body, AlertId);
    RemoveFirstAlert(body);
    assert AlertCount(body) <= 1 ==> forall e :: e in rest ==> e.id != AlertId by {
      if AlertCount(body) <= 1 {
        NoAlertLeft(body);
      }
    }
    assert ([Banner(message, kind)] + rest)[1..] == rest;
    [Banner(message, kind)] + rest
  }

  /** Showing banners one after another leaves only the latest. */
  lemma {:induction false} LatestBannerOnly(body: seq<Element>, m1: string, k1: string, m2: string, k2: string)
    requires AlertCount(body) <= 1
    ensures var after := WithBanner(WithBanner(body, m1, k1), m2, k2);
      AlertCount(after) == 1 && after[0] == Banner(m2, k2) &&
      forall e :: e in after[1..] ==> e.id != AlertId
  {
    var once := WithBanner(body, m1, k1);
    assert AlertCount(once) == 1;
  }

  lemma {:induction false} NoAlertLeft(body: seq<Element>)
    requires AlertCount(body) <= 1
    ensures forall e :: e in RemoveFirstWithId(body, AlertId) ==> e.id != AlertId
  {
    if body != [] && body[0].id != AlertId {
      NoAlertLeft(body[1..]);
    } else if body != [] {
      RestHasNoAlert(body[1..]);
    }
  }

  lemma {:induction false} RestHasNoAlert(body: seq<Element>)
    requires AlertCount(body) == 0
    ensures forall e :: e in body ==> e.id != AlertId
  {
    if body != [] {
      RestHasNoAlert(body[1..]);
      assert forall e :: e in body ==> e == body[0] || e in body[1..];
    }
  }
}
