/** The two pure decisions of the web front end: which upload names are
    accepted as images, and how a comparison summary is labelled. */
module App {

  import opened PyStrings

  /** The extensions an upload may carry, compared after lower-casing. */
  const AllowedExtensions: set<string> := {"png", "jpg", "jpeg", "gif", "bmp"}

  /** The substring whose presence makes the confidence label "High". */
  const HighConfidenceMarker: string := "Distance: 0."

  /** Upload-name check: there must be a dot; the name is split at its last dot;
      the part before it must be non-empty and the part after it, lower-cased,
      must be one of the allowed extensions. */
  function AllowedFile(filename: string): (ok: bool)
    ensures ok ==> '.' in filename && 5 <= |filename| && filename[|filename| - 1] != '.'
  {
    if filename == "" || '.' !in filename then false
    else
      var parts := RSplitOnce(filename, '.');
      if |parts| != 2 then false
      else
        var name, ext := parts[0], parts[1];
        ExtensionsAreLong(Lower(ext));
        assert filename == name + ['.'] + ext;
        name != "" && Lower(ext) in AllowedExtensions
  }

  /** Every allowed extension has at least three characters. */
  lemma ExtensionsAreLong(e: string)
    ensures e in AllowedExtensions ==> 3 <= |e|
  {
  }

  /** A name with no dot, the empty name included, is never accepted. */
  lemma NoDotRejected(filename: string)
    requires '.' !in filename
    ensures !AllowedFile(filename)
  {
  }

  /** The split happens at the LAST dot: for any extension free of dots, the
      verdict depends only on whether the part before it is empty and on the
      lower-cased extension, whatever dots the name part holds. Both directions. */
  lemma {:induction false} AllowedFileSplitsAtLastDot(name: string, ext: string)
    requires '.' !in ext
    ensures AllowedFile(name + "." + ext) <==> name != "" && Lower(ext) in AllowedExtensions
  {
    var f := name + "." + ext;
    assert f[|name|] == '.';
    var parts := RSplitOnce(f, '.');
    assert |parts| == 2 && parts[0] + ['.'] + parts[1] == f && '.' !in parts[1];
    LastDotSplitUnique(name, ext, parts[0], parts[1]);
  }

  /** Two ways of writing a string as `a . b` with no dot in `b` agree. */
  lemma {:induction false} LastDotSplitUnique(a: string, b: string, c: string, d: string)
    requires '.' !in b && '.' !in d
    requires a + "." + b == c + "." + d
    ensures a == c && b == d
  {
    var s := a + "." + b;
    assert s[|a|] == '.';
    assert s[|c|] == (c + "." + d)[|c|] == '.';
    assert |a| == |c|;
    assert a == s[..|a|] == c;
    assert b == s[|a| + 1..] == d;
  }

  /** Whatever its extension, a name with nothing before the last dot (".png") is
      rejected, and so is a name that ends in a dot ("photo."). */
  lemma EmptyPartRejected(name: string)
    ensures !AllowedFile("." + name) || '.' in name
    ensures !AllowedFile(name + ".")
  {
    if '.' !in name {
      AllowedFileSplitsAtLastDot("", name);
      assert "" + "." + name == "." + name;
    }
    AllowedFileSplitsAtLastDot(name, "");
    assert name + "." + "" == name + ".";
    assert Lower("") == "";
  }

  /** The guard on the number of parts never fires: once a dot is present,
      `rsplit('.', 1)` always yields exactly two parts. */
  lemma SplitGuardIsDead(filename: string)
    requires '.' in filename
    ensures |RSplitOnce(filename, '.')| == 2
  {
  }

  /** The extension is compared without regard to ASCII case. */
  lemma {:induction false} ExtensionCaseInsensitive(name: string, ext: string, ext': string)
    requires '.' !in ext && '.' !in ext'
    requires Lower(ext) == Lower(ext')
    ensures AllowedFile(name + "." + ext) == AllowedFile(name + "." + ext')
  {
    AllowedFileSplitsAtLastDot(name, ext);
    AllowedFileSplitsAtLastDot(name, ext');
  }

  /** An upper-case extension is accepted, as in "TEST.PNG". */
  lemma UpperCaseExample()
    ensures AllowedFile("TEST.PNG")
  {
    var name, ext := "TEST", "PNG";
    assert '.' !in ext;
    AllowedFileSplitsAtLastDot(name, ext);
    assert name + "." + ext == "TEST.PNG";
    LowerPng();
  }

  lemma LowerPng()
    ensures Lower("PNG") == "png"
  {
    var l := Lower("PNG");
    assert l[0] == 'p' && l[1] == 'n' && l[2] == 'g';
  }

  /** A name part may itself hold dots, as in "archive.tar.jpeg". */
  lemma DottedNameExample()
    ensures AllowedFile("archive.tar.jpeg")
  {
    var name, ext := "archive.tar", "jpeg";
    assert '.' !in ext;
    AllowedFileSplitsAtLastDot(name, ext);
    assert name + "." + ext == "archive.tar.jpeg";
    LowerJpeg();
  }

  lemma LowerJpeg()
    ensures Lower("jpeg") == "jpeg"
  {
    var l := Lower("jpeg");
    assert l[0] == 'j' && l[1] == 'p' && l[2] == 'e' && l[3] == 'g';
  }

  /** An extension outside the set is rejected, as in "test.txt". */
  lemma UnknownExtensionExample()
    ensures !AllowedFile("test.txt")
  {
    var name, ext := "test", "txt";
    assert '.' !in ext;
    AllowedFileSplitsAtLastDot(name, ext);
    assert name + "." + ext == "test.txt";
    LowerTxt();
  }

  lemma LowerTxt()
    ensures Lower("txt") !in AllowedExtensions
  {
    var l := Lower("txt");
    assert |l| == 3 && l[0] == 't';
    assert l != "png" && l != "jpg" && l != "jpeg" && l != "gif" && l != "bmp" by {
      assert "png"[0] != 't' && "jpg"[0] != 't' && "jpeg"[0] != 't' && "gif"[0] != 't' && "bmp"[0] != 't';
    }
  }

  /** The confidence label shown with a comparison summary. */
  function ConfidenceLabel(details: string): (level: string)
    ensures level == "High" <==> exists i :: OccursAt(details, HighConfidenceMarker, i)
    ensures level == "High" || level == "Medium"
  {
    if Contains(details, HighConfidenceMarker) then "High" else "Medium"
  }
}
