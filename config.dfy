/**
 * The two settings of config.py that the upload path depends on, computed from
 * the raw environment strings (None when the variable is unset).
 */
module Config {
  import opened Wrappers
  import opened Text

  /** The value used when ALLOWED_EXTENSIONS is unset. */
  const DefaultAllowedExtensions := "mp4"

  /** The value used when MAX_CONTENT_LENGTH_MB is unset. */
  const DefaultMaxContentLengthMb := 500

  const BytesPerMb := 1024 * 1024

  /**
   * ALLOWED_EXTENSIONS: the environment value lower-cased and split at every
   * comma; the pieces are not trimmed and duplicates collapse into one entry.
   */
  function AllowedExtensions(env: Option<string>): (exts: set<string>)
    ensures forall e :: e in exts ==> IsLowerCase(e) && ',' !in e
    // the set is exactly what the comma-joined, lower-cased setting lists
    ensures exists pieces: seq<string> ::
              |pieces| >= 1 &&
              Join(pieces, ',') == ToLower(env.GetOr(DefaultAllowedExtensions)) &&
              exts == set p | p in pieces
  {
    var pieces := Split(ToLower(env.GetOr(DefaultAllowedExtensions)), ',');
    assert forall k :: 0 <= k < |pieces| ==> IsLowerCase(pieces[k]) by {
      forall k | 0 <= k < |pieces| ensures IsLowerCase(pieces[k]) {
        SplitPiecesLowerCase(ToLower(env.GetOr(DefaultAllowedExtensions)), k);
      }
    }
    set p | p in pieces
  }

  /** Every piece of a lower-case string is lower case. */
  lemma SplitPiecesLowerCase(s: string, k: nat)
    requires IsLowerCase(s)
    requires k < |Split(s, ',')|
    ensures IsLowerCase(Split(s, ',')[k])
    decreases |s|
  {
    match IndexOf(s, ',')
    case None =>
    case Some(i) =>
      if k > 0 {
        SplitPiecesLowerCase(s[i + 1..], k - 1);
      }
  }

  /** A setting whose lower-cased form joins some comma-free names with commas allows exactly those names. */
  lemma AllowedExtensionsOfList(raw: string, names: seq<string>)
    requires |names| >= 1
    requires forall k :: 0 <= k < |names| ==> ',' !in names[k]
    requires ToLower(raw) == Join(names, ',')
    ensures AllowedExtensions(Some(raw)) == set n | n in names
  {
    SplitJoin(names, ',');
  }

  /** With the environment unset the only allowed extension is `mp4`. */
  lemma DefaultIsMp4()
    ensures AllowedExtensions(None) == {"mp4"}
  {
    LowerMp4();
    AllowedExtensionsOfList("mp4", ["mp4"]);
    assert "mp4" in set n | n in ["mp4"];
  }

  /** An empty setting is one empty piece, so only the empty extension is allowed. */
  lemma EmptySettingAllowsEmptyExtension()
    ensures AllowedExtensions(Some("")) == {""}
  {
    assert ToLower("") == Join([""], ',');
    AllowedExtensionsOfList("", [""]);
    assert "" in set n | n in [""];
  }

  /** Lower-casing "mp4" or "MP4" gives "mp4". */
  lemma LowerMp4()
    ensures ToLower("mp4") == "mp4"
    ensures ToLower("MP4") == "mp4"
  {
    assert forall i :: 0 <= i < 3 ==> ToLower("mp4")[i] == "mp4"[i];
    assert forall i :: 0 <= i < 3 ==> ToLower("MP4")[i] == "mp4"[i];
  }

  /** Pieces keep their blanks: "MP4, mov" allows "mp4" and " mov", not "mov". */
  lemma PiecesAreNotTrimmed()
    ensures AllowedExtensions(Some("MP4, mov")) == set n | n in ["mp4", " mov"]
  {
    var names := ["mp4", " mov"];
    assert Join(names, ',') == "mp4, mov" by {
      assert Join(names[1..], ',') == " mov";
    }
    assert ToLower("MP4, mov") == "mp4, mov" by {
      var lowered := ToLower("MP4, mov");
      assert forall i :: 0 <= i < 8 ==> lowered[i] == "mp4, mov"[i];
    }
    AllowedExtensionsOfList("MP4, mov", names);
  }

  /** MAX_CONTENT_LENGTH: the megabyte setting (parsed by `int`) times 1024 * 1024. */
  function MaxContentLength(mb: Option<int>): (bytes: int)
    ensures bytes % 1048576 == 0
    ensures bytes / 1048576 == mb.GetOr(DefaultMaxContentLengthMb)
    ensures mb == None ==> bytes == 524288000
  {
    mb.GetOr(DefaultMaxContentLengthMb) * BytesPerMb
  }
}
