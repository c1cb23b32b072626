/**
 * The profile-picture file check `allowed_file`, identical in app.py and
 * app_poo.py: the name must hold a `.`, and the text after its last `.`,
 * lowered, must be one of four image extensions.
 */
module FileNames {
  import opened Strings

  const AllowedExtensions: set<string> := {"png", "jpg", "jpeg", "gif"}

  /** `allowed_file`: the name holds a `.`, and its last extension, lowered,
      is one of the four. */
  function AllowedFile(filename: string): (ok: bool)
    ensures ok ==> '.' in filename
    ensures ok ==> exists k :: 0 <= k < |filename| && filename[k] == '.' && Lower(filename[k + 1..]) in AllowedExtensions
  {
    '.' in filename && Lower(RSplitOnce(filename, '.')[1]) in AllowedExtensions
  }

  /** Every name with a `.` splits into a stem and an extension without a
      `.`, and the decision is the extension's alone, whatever the stem. */
  lemma AllowedFileIsExtensionCheck(stem: string, ext: string)
    requires '.' !in ext
    ensures AllowedFile(stem + "." + ext) <==> Lower(ext) in AllowedExtensions
  {
    var f := stem + "." + ext;
    assert '.' in f by {
      assert f[|stem|] == '.';
    }
    TextAfterLastOfAppend(stem, '.', ext);
    TextAfterLastUnique(f, '.', RSplitOnce(f, '.')[1], ext);
  }

  /** The check ignores the case of the name. */
  lemma AllowedFileIgnoresCase(filename: string)
    ensures AllowedFile(Lower(filename)) == AllowedFile(filename)
  {
    var lf := Lower(filename);
    assert ('.' in lf) == ('.' in filename) by {
      assert forall i :: 0 <= i < |filename| ==> (lf[i] == '.' <==> filename[i] == '.');
    }
    if '.' in filename {
      var ext := RSplitOnce(filename, '.')[1];
      LowerKeepsTextAfterLastDot(filename, ext);
      TextAfterLastUnique(lf, '.', RSplitOnce(lf, '.')[1], Lower(ext));
      LowerIdempotent(ext);
    }
  }

  /** An upper-case extension passes. */
  lemma UpperCaseExtensionAllowed(stem: string)
    ensures AllowedFile(stem + "." + "JPG")
  {
    var l := Lower("JPG");
    assert l[0] == 'j' && l[1] == 'p' && l[2] == 'g';
    assert l == "jpg";
    assert l in AllowedExtensions;
    AllowedFileIsExtensionCheck(stem, "JPG");
  }

  /** Only the last extension counts. */
  lemma OnlyLastExtensionCounts(stem: string)
    ensures !AllowedFile(stem + ".png" + "." + "zip")
  {
    var l := Lower("zip");
    assert l[0] == 'z' && l[1] == 'i' && l[2] == 'p';
    assert l == "zip";
    assert l !in AllowedExtensions;
    AllowedFileIsExtensionCheck(stem + ".png", "zip");
  }

  /** A hidden file whose whole name is `.png` passes. */
  lemma HiddenFileAllowed()
    ensures AllowedFile("" + "." + "png")
  {
    var l := Lower("png");
    assert l[0] == 'p' && l[1] == 'n' && l[2] == 'g';
    assert l == "png";
    assert l in AllowedExtensions;
    AllowedFileIsExtensionCheck("", "png");
  }
}
