/** The upload filter of app/routes.py, with the configured extension set as a parameter. */
module Routes {
  import opened Wrappers
  import opened Text
  import Config

  /** `filename.rsplit(".", 1)[1]`: everything after the last dot. */
  function Extension(filename: string): (ext: string)
    requires '.' in filename
    ensures '.' !in ext
    ensures |ext| < |filename|
    ensures filename[|filename| - |ext| - 1] == '.'
    ensures ext == filename[|filename| - |ext|..]
  {
    var i := LastIndexOf(filename, '.').value;
    filename[i + 1..]
  }

  /** `allowed_file`: a name without a dot is refused; otherwise its lower-cased extension must be allowed. */
  function AllowedFile(filename: string, allowed: set<string>): (ok: bool)
    ensures '.' !in filename ==> !ok
    ensures ok ==> exists e :: e in allowed && '.' !in e && IsLowerCase(e)
  {
    if '.' !in filename then false
    else
      var ext := ToLower(Extension(filename));
      assert '.' !in ext by {
        forall j | 0 <= j < |ext| ensures ext[j] != '.' {
          assert Extension(filename)[j] != '.';
        }
      }
      ext in allowed
  }

  /** For a name written as `stem.ext` with no dot in `ext`, only `ext` decides, whatever `stem` holds. */
  lemma AllowedFileOfSplit(stem: string, ext: string, allowed: set<string>)
    requires '.' !in ext
    ensures Extension(stem + "." + ext) == ext
    ensures AllowedFile(stem + "." + ext, allowed) == (ToLower(ext) in allowed)
  {
    var name := stem + "." + ext;
    assert name == stem + ['.'] + ext;
    LastIndexOfSplit(stem, '.', ext);
    assert name[|stem| + 1..] == ext;
  }

  /** The test ignores letter case: `stem.EXT` is accepted exactly when `stem.ext` is. */
  lemma CaseInsensitive(stem: string, ext: string, allowed: set<string>)
    requires '.' !in ext
    ensures '.' !in ToLower(ext)
    ensures AllowedFile(stem + "." + ext, allowed) == AllowedFile(stem + "." + ToLower(ext), allowed)
  {
    assert '.' !in ToLower(ext) by {
      forall j | 0 <= j < |ext| ensures ToLower(ext)[j] != '.' {
        assert ext[j] != '.';
      }
    }
    AllowedFileOfSplit(stem, ext, allowed);
    AllowedFileOfSplit(stem, ToLower(ext), allowed);
    ToLowerIdempotent(ext);
  }

  /** The extension is matched in lower case: `clip.MP4` passes under {"mp4"}. */
  lemma UpperCaseExtensionAccepted()
    ensures AllowedFile("clip.MP4", {"mp4"})
  {
    AllowedFileOfSplit("clip", "MP4", {"mp4"});
    Config.LowerMp4();
  }

  /** Only the last extension counts: `clip.mp4.exe` is refused under {"mp4"}. */
  lemma DoubleExtensionRefused()
    ensures !AllowedFile("clip.mp4.exe", {"mp4"})
  {
    var ext := "exe";
    assert '.' !in ext;
    assert "clip.mp4" + "." + ext == "clip.mp4.exe";
    AllowedFileOfSplit("clip.mp4", ext, {"mp4"});
    assert ToLower(ext) != "mp4" by {
      assert ToLower(ext)[0] == 'e';
    }
  }

  /** A name that is nothing but a dot and an extension passes: `.mp4` under {"mp4"}. */
  lemma DotFileAccepted()
    ensures AllowedFile(".mp4", {"mp4"})
  {
    var ext := "mp4";
    assert '.' !in ext;
    assert "" + "." + ext == ".mp4";
    AllowedFileOfSplit("", ext, {"mp4"});
    Config.LowerMp4();
  }

  /** A trailing dot leaves the empty extension. */
  lemma TrailingDot()
    ensures Extension("clip.") == ""
  {
    AllowedFileOfSplit("clip", "", {});
  }

  /** Under the default configuration a `.MP4` name passes. */
  lemma DefaultConfigAcceptsMp4()
    ensures AllowedFile("clip.MP4", Config.AllowedExtensions(None))
  {
    Config.DefaultIsMp4();
    UpperCaseExtensionAccepted();
  }

  /** A setting written with a blank after the comma allows " mov", so `x.mov` is refused. */
  lemma BlankInSettingRefusesMov()
    ensures !AllowedFile("x.mov", Config.AllowedExtensions(Some("MP4, mov")))
  {
    Config.PiecesAreNotTrimmed();
    MovNotListed();
  }

  lemma MovNotListed()
    ensures !AllowedFile("x.mov", set n | n in ["mp4", " mov"])
  {
    var exts := set n | n in ["mp4", " mov"];
    var ext := "mov";
    assert '.' !in ext;
    assert "x" + "." + ext == "x.mov";
    AllowedFileOfSplit("x", ext, exts);
    assert ToLower(ext) !in exts by {
      assert |ToLower(ext)| == 3 && ToLower(ext)[1] == 'o';
    }
  }
}
