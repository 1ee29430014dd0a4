/**
 * `hexToFFmpegColor` of app/static/js/videoPreview.js: turns a colour written
 * as "#RRGGBB" (or "#RGB") into the "&HBBGGRR&" literal the server passes to
 * FFmpeg. The code checks no hex digit: it only strips the first '#', doubles
 * a three-character remainder and reorders three two-character slices.
 */
module ColorEncoder {
  import opened Wrappers
  import opened Text

  /** What a falsy argument (undefined, null or "") encodes to. */
  const White := "&HFFFFFF&"

  /** `!hex` for a string-or-absent argument. */
  predicate Falsy(hex: Option<string>) {
    hex == None || hex == Some("")
  }

  /** `s.replace(c, '')` with a one-character pattern: only the first `c` goes. */
  function RemoveFirst(s: string, c: char): (r: string)
    ensures c !in s ==> r == s
    ensures c in s ==> |r| == |s| - 1
  {
    match IndexOf(s, c)
    case None => s
    case Some(i) => s[..i] + s[i + 1..]
  }

  /** The `c` removed is the first one: whatever follows it is kept, later `c`s included. */
  lemma RemoveFirstSplit(p: string, c: char, q: string)
    requires c !in p
    ensures RemoveFirst(p + [c] + q, c) == p + q
  {
    var s := p + [c] + q;
    IndexOfSplit(p, c, q);
    assert s[..|p|] == p && s[|p| + 1..] == q;
  }

  /** Characters of `s` before any `c` are kept when `c` is removed from a longer string. */
  lemma RemoveFirstAppend(s: string, t: string, c: char)
    requires c !in s
    ensures RemoveFirst(s + t, c) == s + RemoveFirst(t, c)
  {
    if c in t {
      var i := IndexOf(t, c).value;
      var p, q := t[..i], t[i + 1..];
      assert c !in p by {
        assert forall j :: 0 <= j < |p| ==> p[j] == t[j];
      }
      assert t == p + [c] + q;
      RemoveFirstAfterPrefix(s, p, c, q);
    } else {
      assert c !in s + t;
    }
  }

  lemma RemoveFirstAfterPrefix(s: string, p: string, c: char, q: string)
    requires c !in s && c !in p
    ensures RemoveFirst(s + (p + [c] + q), c) == s + RemoveFirst(p + [c] + q, c)
  {
    var left := s + p;
    assert c !in left;
    assert s + (p + [c] + q) == left + [c] + q;
    assert left + q == s + (p + q);
    RemoveFirstSplit(left, c, q);
    RemoveFirstSplit(p, c, q);
  }

  /** `s.split('').map(c => c + c).join('')`. */
  function DoubleEach(s: string): (r: string)
    ensures |r| == 2 * |s|
    ensures forall k :: 0 <= k < |s| ==> r[2 * k] == s[k] && r[2 * k + 1] == s[k]
  {
    if s == [] then [] else [s[0], s[0]] + DoubleEach(s[1..])
  }

  /** JavaScript `s.substring(start, end)`: both ends clamped into [0, |s|], and swapped when start > end. */
  function Substring(s: string, start: int, end: int): (r: string)
    ensures 0 <= start <= end <= |s| ==> r == s[start..end]
    ensures 0 <= start <= end && |s| <= start ==> r == ""
    ensures 0 <= start <= |s| <= end ==> r == s[start..]
  {
    var a := Clamp(start, |s|);
    var b := Clamp(end, |s|);
    if a <= b then s[a..b] else s[b..a]
  }

  function Clamp(x: int, n: nat): (y: nat)
    ensures y <= n
  {
    if x < 0 then 0 else if x > n then n else x
  }

  /** The shape of every result: "&H", then anything, then "&". */
  predicate Bracketed(t: string) {
    |t| >= 3 && t[0] == '&' && t[1] == 'H' && t[|t| - 1] == '&'
  }

  /** Line 67: a three-character remainder is spelled out to six. */
  function Expand(stripped: string): (digits: string)
    ensures |stripped| == 3 ==>
      digits == [stripped[0], stripped[0], stripped[1], stripped[1], stripped[2], stripped[2]]
    ensures |stripped| != 3 ==> digits == stripped
  {
    if |stripped| == 3 then
      DoubleEachThree(stripped);
      DoubleEach(stripped)
    else stripped
  }

  /** Lines 69-72: slices [4, 6), [2, 4) and [0, 2), in that order, between "&H" and "&". */
  function Reorder(digits: string): (token: string)
    ensures Bracketed(token)
    ensures |token| <= 9 && (|digits| >= 6 ==> |token| == 9)
  {
    "&H" + Substring(digits, 4, 6) + Substring(digits, 2, 4) + Substring(digits, 0, 2) + "&"
  }

  /** `hexToFFmpegColor(hex)`. */
  function HexToFFmpegColor(hex: Option<string>): (token: string)
    ensures Falsy(hex) ==> token == White
    ensures Bracketed(token)
    ensures |token| <= 9
  {
    if Falsy(hex) then White
    else Reorder(Expand(RemoveFirst(hex.value, '#')))
  }

  /** Only the first '#' is stripped; any later one stays in the digits. */
  lemma LeadingHashStripped(s: string)
    ensures HexToFFmpegColor(Some("#" + s)) == Reorder(Expand(s))
  {
    var hex := "#" + s;
    assert hex[0] == '#' && hex[1..] == s;
    assert IndexOf(hex, '#') == Some(0);
    assert RemoveFirst(hex, '#') == hex[..0] + hex[1..];
    assert hex[..0] + hex[1..] == s;
    assert !Falsy(Some(hex)) by {
      assert |hex| == |s| + 1;
    }
  }

  /** Without any '#' the argument is used as it is. */
  lemma NoHashKept(s: string)
    requires s != [] && '#' !in s
    ensures HexToFFmpegColor(Some(s)) == Reorder(Expand(s))
  {
    assert IndexOf(s, '#') == None;
    assert RemoveFirst(s, '#') == s;
    assert !Falsy(Some(s)) by {
      assert |s| > 0;
    }
  }

  /** With at least six digits the three slices are whole pairs. */
  lemma ReorderSix(d: string)
    requires |d| >= 6
    ensures Reorder(d) == "&H" + d[4..6] + d[2..4] + d[0..2] + "&"
  {
    assert Substring(d, 4, 6) == d[4..6];
    assert Substring(d, 2, 4) == d[2..4];
    assert Substring(d, 0, 2) == d[0..2];
  }

  /** With four digits the first slice is empty. */
  lemma ReorderFour(d: string)
    requires |d| == 4
    ensures Reorder(d) == "&H" + d[2..4] + d[0..2] + "&"
  {
    assert Substring(d, 4, 6) == "";
    assert Substring(d, 2, 4) == d[2..4];
    assert Substring(d, 0, 2) == d[0..2];
    assert "&H" + "" + d[2..4] + d[0..2] + "&" == "&H" + d[2..4] + d[0..2] + "&";
  }

  /** Six characters: the pairs come out in the order 3, 2, 1, letter case untouched. */
  lemma SixCharacters(s: string)
    requires |s| == 6 && '#' !in s
    ensures HexToFFmpegColor(Some(s)) == "&H" + s[4..6] + s[2..4] + s[0..2] + "&"
  {
    NoHashKept(s);
    assert Expand(s) == s;
    ReorderSix(s);
  }

  /** The same six characters behind a '#' give the same literal. */
  lemma HashedSixCharacters(s: string)
    requires |s| == 6
    ensures HexToFFmpegColor(Some("#" + s)) == "&H" + s[4..6] + s[2..4] + s[0..2] + "&"
  {
    LeadingHashStripped(s);
    assert Expand(s) == s;
    ReorderSix(s);
  }

  lemma DoubleEachThree(s: string)
    requires |s| == 3
    ensures DoubleEach(s) == [s[0], s[0], s[1], s[1], s[2], s[2]]
  {
    var d := DoubleEach(s);
    assert d[0] == s[0] && d[1] == s[0];
    assert d[2 * 1] == s[1] && d[2 * 1 + 1] == s[1];
    assert d[2 * 2] == s[2] && d[2 * 2 + 1] == s[2];
  }

  /** Three characters: each is written twice, then the pairs are reversed. */
  lemma ThreeCharacters(s: string)
    requires |s| == 3 && '#' !in s
    ensures HexToFFmpegColor(Some(s)) == "&H" + [s[2], s[2], s[1], s[1], s[0], s[0]] + "&"
  {
    NoHashKept(s);
    ExpandThree(s);
  }

  /** The same three characters behind a '#' give the same literal. */
  lemma HashedThreeCharacters(s: string)
    requires |s| == 3
    ensures HexToFFmpegColor(Some("#" + s)) == "&H" + [s[2], s[2], s[1], s[1], s[0], s[0]] + "&"
  {
    LeadingHashStripped(s);
    ExpandThree(s);
  }

  lemma ExpandThree(s: string)
    requires |s| == 3
    ensures Reorder(Expand(s)) == "&H" + [s[2], s[2], s[1], s[1], s[0], s[0]] + "&"
  {
    var d := [s[0], s[0], s[1], s[1], s[2], s[2]];
    assert Expand(s) == d;
    ReorderSix(d);
    assert d[4..6] + d[2..4] + d[0..2] == [s[2], s[2], s[1], s[1], s[0], s[0]];
  }

  /** So "abc" encodes exactly as "aabbcc" does. */
  lemma ShorthandAsLonghand(s: string)
    requires |s| == 3 && '#' !in s
    ensures HexToFFmpegColor(Some(s)) == HexToFFmpegColor(Some([s[0], s[0], s[1], s[1], s[2], s[2]]))
  {
    var d := [s[0], s[0], s[1], s[1], s[2], s[2]];
    ThreeCharacters(s);
    assert '#' !in d by {
      forall j | 0 <= j < 6 ensures d[j] != '#' {
        assert d[j] == s[j / 2];
      }
    }
    SixCharacters(d);
    assert d[4..6] + d[2..4] + d[0..2] == [s[2], s[2], s[1], s[1], s[0], s[0]];
  }

  /** Characters after the sixth are dropped, a '#' among them included. */
  lemma TrailingCharactersIgnored(s: string, t: string)
    requires |s| >= 6 && '#' !in s
    ensures HexToFFmpegColor(Some(s + t)) == HexToFFmpegColor(Some(s[..6]))
  {
    RemoveFirstAppend(s, t, '#');
    var digits := s + RemoveFirst(t, '#');
    assert !Falsy(Some(s + t)) by {
      assert |s + t| >= 6;
    }
    assert Expand(digits) == digits by {
      assert |digits| >= 6;
    }
    ReorderSix(digits);
    assert digits[..6] == s[..6];
    var head := s[..6];
    assert '#' !in head by {
      forall j | 0 <= j < 6 ensures head[j] != '#' {
        assert s[j] != '#';
      }
    }
    NoHashKept(head);
    ReorderSix(head);
    assert digits[4..6] == head[4..6] && digits[2..4] == head[2..4] && digits[0..2] == head[0..2];
  }

  /** Unvalidated input: a lone '#' leaves nothing to reorder. */
  lemma LoneHash()
    ensures HexToFFmpegColor(Some("#")) == "&H&"
  {
    LeadingHashStripped("");
    assert "#" + "" == "#";
    assert Expand("") == "";
    assert Substring("", 4, 6) == "" && Substring("", 2, 4) == "" && Substring("", 0, 2) == "";
    assert "&H" + "" + "" + "" + "&" == "&H&";
  }

  /** Unvalidated input: four characters are neither padded nor refused. */
  lemma FourCharacters()
    ensures HexToFFmpegColor(Some("abcd")) == "&Hcdab&"
  {
    var d := "abcd";
    assert '#' !in d by {
      assert d[0] != '#' && d[1] != '#' && d[2] != '#' && d[3] != '#';
    }
    NoHashKept(d);
    assert Expand(d) == d;
    ReorderFour(d);
    assert d[2..4] == "cd" && d[0..2] == "ab";
    assert "&H" + "cd" + "ab" + "&" == "&Hcdab&";
  }

  /** A leading '#' then four characters: stripped once, the rest reordered unpadded. */
  lemma HashThenFour(d: string)
    requires |d| == 4
    ensures HexToFFmpegColor(Some("#" + d)) == "&H" + d[2..4] + d[0..2] + "&"
  {
    LeadingHashStripped(d);
    assert Expand(d) == d;
    ReorderFour(d);
  }

  /** A second '#' survives the strip and lands in the output: "##abc" gives "&Hbc#a&". */
  lemma SecondHashKept(rest: string)
    requires |rest| == 3
    ensures HexToFFmpegColor(Some("##" + rest)) == "&H" + rest[1..] + "#" + rest[..1] + "&"
  {
    var d := "#" + rest;
    HashThenFour(d);
    assert "#" + d == "##" + rest;
    assert d[2..4] == rest[1..] && d[0..2] == "#" + rest[..1];
  }

  /** The submission's fallback text colour '#FFFFFF' encodes to white. */
  lemma WhiteIsWhite()
    ensures HexToFFmpegColor(Some("#FFFFFF")) == White
  {
    UniformSix('F');
  }

  /** Six copies of one character behind a '#' encode to themselves between "&H" and "&". */
  lemma UniformSix(c: char)
    ensures HexToFFmpegColor(Some(['#', c, c, c, c, c, c])) == ['&', 'H', c, c, c, c, c, c, '&']
  {
    var s := [c, c, c, c, c, c];
    assert ['#', c, c, c, c, c, c] == "#" + s;
    LeadingHashStripped(s);
    assert Expand(s) == s;
    UniformReorder(s, c);
  }

  lemma UniformReorder(s: string, c: char)
    requires s == [c, c, c, c, c, c]
    ensures Reorder(s) == ['&', 'H', c, c, c, c, c, c, '&']
  {
    ReorderSix(s);
    assert s[4..6] == [c, c] && s[2..4] == [c, c] && s[0..2] == [c, c];
    assert "&H" + [c, c] + [c, c] + [c, c] + "&" == ['&', 'H', c, c, c, c, c, c, '&'];
  }

  /** The submission's black background '#000000' encodes to zeros. */
  lemma BlackIsZeros()
    ensures HexToFFmpegColor(Some("#000000")) == "&H000000&"
  {
    UniformSix('0');
  }

  predicate IsHexDigit(c: char) {
    '0' <= c <= '9' || 'a' <= c <= 'f' || 'A' <= c <= 'F'
  }

  /** A well-formed FFmpeg colour literal: "&H", six hex digits, "&". */
  predicate IsToken(t: string) {
    |t| == 9 && Bracketed(t) &&
    forall j :: 2 <= j < 8 ==> IsHexDigit(t[j])
  }

  /** A 3- or 6-digit colour, with or without one leading '#'. */
  predicate IsHexColour(hex: string) {
    var digits := if |hex| > 0 && hex[0] == '#' then hex[1..] else hex;
    (|digits| == 3 || |digits| == 6) &&
    forall j :: 0 <= j < |digits| ==> IsHexDigit(digits[j])
  }

  /** The reading that inverts the encoder: "&HBBGGRR&" back to "RRGGBB". */
  function TokenToHex(t: string): (hex: Option<string>)
    ensures hex.Some? ==> |hex.value| == 6
  {
    if |t| == 9 && Bracketed(t) then Some(t[6..8] + t[4..6] + t[2..4])
    else None
  }

  lemma TokenOfDigits(x: string)
    requires |x| == 6
    requires forall j :: 0 <= j < 6 ==> IsHexDigit(x[j])
    ensures IsToken("&H" + x + "&")
  {
    var t := "&H" + x + "&";
    assert forall j :: 2 <= j < 8 ==> t[j] == x[j - 2];
  }

  lemma SixDigitToken(digits: string)
    requires |digits| == 6 && forall j :: 0 <= j < 6 ==> IsHexDigit(digits[j])
    ensures IsToken(HexToFFmpegColor(Some(digits)))
    ensures IsToken(HexToFFmpegColor(Some("#" + digits)))
  {
    var x := digits[4..6] + digits[2..4] + digits[0..2];
    assert IsToken("&H" + x + "&") by {
      assert forall j :: 0 <= j < 6 ==> x[j] == digits[if j < 2 then j + 4 else if j < 4 then j else j - 4];
      TokenOfDigits(x);
    }
    assert '#' !in digits by {
      forall j | 0 <= j < 6 ensures digits[j] != '#' {
        assert IsHexDigit(digits[j]);
      }
    }
    assert HexToFFmpegColor(Some(digits)) == "&H" + x + "&" by {
      SixCharacters(digits);
    }
    assert HexToFFmpegColor(Some("#" + digits)) == "&H" + x + "&" by {
      HashedSixCharacters(digits);
    }
  }

  lemma ThreeDigitToken(digits: string)
    requires |digits| == 3 && forall j :: 0 <= j < 3 ==> IsHexDigit(digits[j])
    ensures IsToken(HexToFFmpegColor(Some(digits)))
    ensures IsToken(HexToFFmpegColor(Some("#" + digits)))
  {
    var x := [digits[2], digits[2], digits[1], digits[1], digits[0], digits[0]];
    assert IsHexDigit(digits[0]) && IsHexDigit(digits[1]) && IsHexDigit(digits[2]);
    TokenOfDigits(x);
    assert '#' !in digits by {
      forall j | 0 <= j < 3 ensures digits[j] != '#' {
        assert IsHexDigit(digits[j]);
      }
    }
    assert HexToFFmpegColor(Some(digits)) == "&H" + x + "&" by {
      ThreeCharacters(digits);
    }
    assert HexToFFmpegColor(Some("#" + digits)) == "&H" + x + "&" by {
      HashedThreeCharacters(digits);
    }
  }

  /** Well-formed colours always give well-formed literals. */
  lemma ValidColourGivesToken(hex: string)
    requires IsHexColour(hex)
    ensures IsToken(HexToFFmpegColor(Some(hex)))
  {
    if |hex| > 0 && hex[0] == '#' {
      var digits := hex[1..];
      assert hex == "#" + digits;
      if |digits| == 6 { SixDigitToken(digits); } else { ThreeDigitToken(digits); }
    } else if |hex| == 6 {
      SixDigitToken(hex);
    } else {
      ThreeDigitToken(hex);
    }
  }

  /** Round trip: a six-digit colour is read back from its literal. */
  lemma TokenRoundTrip(s: string)
    requires |s| == 6 && '#' !in s
    ensures TokenToHex(HexToFFmpegColor(Some(s))) == Some(s)
    ensures TokenToHex(HexToFFmpegColor(Some("#" + s))) == Some(s)
  {
    var t := "&H" + s[4..6] + s[2..4] + s[0..2] + "&";
    assert TokenToHex(t) == Some(s) by {
      assert t[6..8] == s[0..2] && t[4..6] == s[2..4] && t[2..4] == s[4..6];
      assert s == s[0..2] + s[2..4] + s[4..6];
    }
    SixCharacters(s);
    HashedSixCharacters(s);
  }

  /** And the other way: every well-formed literal is what its reading encodes to. */
  lemma HexRoundTrip(t: string)
    requires IsToken(t)
    ensures TokenToHex(t).Some?
    ensures HexToFFmpegColor(Some(TokenToHex(t).value)) == t
  {
    var s := t[6..8] + t[4..6] + t[2..4];
    assert TokenToHex(t) == Some(s);
    assert '#' !in s by {
      forall j | 0 <= j < 6 ensures s[j] != '#' {
        assert s[j] == t[if j < 2 then j + 6 else if j < 4 then j + 2 else j - 2];
        assert IsHexDigit(s[j]);
      }
    }
    assert HexToFFmpegColor(Some(s)) == "&H" + s[4..6] + s[2..4] + s[0..2] + "&" by {
      SixCharacters(s);
    }
    assert s[4..6] == t[2..4] && s[2..4] == t[4..6] && s[0..2] == t[6..8];
    assert t == t[..2] + t[2..4] + t[4..6] + t[6..8] + [t[8]];
  }
}
