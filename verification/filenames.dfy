/** The server's filename rules (app.py): which upload names are accepted, and
    how the stored upload and the generated sketch are named. */
module Filenames {
  import opened Text

  /** app.config['ALLOWED_EXTENSIONS']. */
  const AllowedExtensions: set<string> := {"png", "jpg", "jpeg", "bmp", "tiff", "webp"}

  /** The text after the last '.', as `filename.rsplit('.', 1)[1]` yields it;
      only meaningful when the name contains a dot. */
  function AfterLastDot(filename: string): string
    requires '.' in filename
  {
    filename[RFind(filename, '.') + 1..]
  }

  /** `allowed_file`: the name has a dot and the text after its last dot,
      lower-cased, is one of the allowed extensions. */
  function AllowedFile(filename: string): (r: bool)
    ensures '.' !in filename ==> !r
    ensures r <==> '.' in filename && Lower(AfterLastDot(filename)) in AllowedExtensions
  {
    '.' in filename && Lower(filename[RFind(filename, '.') + 1..]) in AllowedExtensions
  }

  /** Every name `p + "." + e` whose last part `e` has no dot is judged by `e`
      alone: the stem `p`, dots and all, plays no part. Together with the
      no-dot case this decides `AllowedFile` for every string. */
  lemma ExtensionRule(p: string, e: string)
    requires '.' !in e
    ensures AllowedFile(p + "." + e) <==> Lower(e) in AllowedExtensions
  {
    var s := p + "." + e;
    LastDotAt(p, e);
    assert s[|p| + 1..] == e;
  }

  /** In `p + "." + e` with a dot-free `e`, the last dot is the one after `p`. */
  lemma LastDotAt(p: string, e: string)
    requires '.' !in e
    ensures RFind(p + "." + e, '.') == |p|
  {
    var s := p + "." + e;
    assert s[|p|] == '.';
    forall j | |p| < j < |s|
      ensures s[j] != '.'
    {
      assert s[j] == e[j - |p| - 1];
    }
    RFindUnique(s, '.', |p|);
  }

  /** An upper-case extension is accepted. */
  lemma AcceptsUpperCaseExtension()
    ensures AllowedFile("a.PNG")
  {
    assert "a.PNG" == "a" + "." + "PNG";
    ExtensionRule("a", "PNG");
    assert Lower("PNG") == "png";
  }

  /** Only the last extension counts: an image name with an executable
      extension appended is refused. */
  lemma RejectsAppendedExtension()
    ensures !AllowedFile("a.png.exe")
  {
  }

  /** A trailing dot gives the empty extension, which is refused. */
  lemma RejectsEmptyExtension()
    ensures !AllowedFile("a.")
  {
  }

  /** `os.path.splitext` on POSIX: split at the last '.' of the last path
      component, unless everything in that component before the dot is dots
      (a leading dot does not start an extension). The two halves put back
      together give the path. */
  function Splitext(path: string): (r: (string, string))
    ensures r.0 + r.1 == path
  {
    var sepIndex := RFind(path, '/');
    var dotIndex := RFind(path, '.');
    if dotIndex > sepIndex && !AllDots(path[sepIndex + 1..dotIndex]) then
      (path[..dotIndex], path[dotIndex..])
    else
      (path, "")
  }

  /** A non-empty extension is one dot followed by neither dots nor slashes,
      and the last component of the stem is not made of dots alone. */
  lemma SplitextParts(path: string)
    ensures var ext := Splitext(path).1;
      ext == "" || (ext[0] == '.' && '.' !in ext[1..] && '/' !in ext)
    ensures var name, ext := Splitext(path).0, Splitext(path).1;
      ext != "" ==> !AllDots(name[RFind(name, '/') + 1..])
  {
  }

  /** Python's documented cases: the last dot splits, and leading dots do not. */
  lemma SplitsAtLastDot()
    ensures Splitext("a.tar.gz") == ("a.tar", ".gz")
  {
    var p := "a.tar.gz";
    assert p == "a.tar" + ".gz";
    assert RFind(p, '/') == -1 by {
      RFindAbsent(p, '/');
    }
    assert p[5..] == ".gz" && p[6..] == "gz";
    SplitextAt(p, 5, 0);
  }

  /** A leading dot does not start an extension, however many there are. */
  lemma LeadingDotsAreNotExtensions()
    ensures Splitext(".bashrc") == (".bashrc", "")
    ensures Splitext("..png") == ("..png", "")
  {
    var b, d := ".bashrc", "..png";
    RFindAbsent(b, '/');
    RFindAbsent(d, '/');
    assert b[1..] == "bashrc";
    RFindUnique(b, '.', 0);
    assert d[2..] == "png";
    RFindUnique(d, '.', 1);
    assert AllDots(d[0..1]);
  }

  /** A dot in a directory name is never an extension. */
  lemma DirectoryDotIsNotExtension()
    ensures Splitext("dir.d/file") == ("dir.d/file", "")
  {
    var p := "dir.d/file";
    assert p[5] == '/' && p[6] != '/' && p[7] != '/' && p[8] != '/' && p[9] != '/';
    RFindUnique(p, '/', 5);
    assert p[3] == '.' && p[4] != '.' && p[5] != '.' && p[6] != '.' && p[7] != '.' && p[8] != '.' && p[9] != '.';
    RFindUnique(p, '.', 3);
  }

  /** `unique_filename`: the stem, then "_" and the timestamp, then the
      original extension. It is one character plus the timestamp longer than
      the secured name, and ends with that name's extension. */
  function UniqueFilename(secured: string, timestamp: string): (r: string)
    ensures |r| == |secured| + 1 + |timestamp|
    ensures r[|r| - |Splitext(secured).1|..] == Splitext(secured).1
  {
    var parts := Splitext(secured);
    parts.0 + "_" + timestamp + parts.1
  }

  /** `sketch_filename`: "sketch_", the stem, "_" and the timestamp, and
      always the ".png" extension, whatever the input. */
  function SketchFilename(secured: string, timestamp: string): (r: string)
    ensures |r| >= |"sketch_"| + |".png"|
    ensures r[..7] == "sketch_"
    ensures r[|r| - 4..] == ".png"
  {
    "sketch_" + Splitext(secured).0 + "_" + timestamp + ".png"
  }

  /** `strftime('%Y%m%d_%H%M%S')` yields digits and one underscore, so a
      timestamp never holds a dot or a slash. */
  predicate PlainStamp(timestamp: string)
  {
    '.' !in timestamp && '/' !in timestamp
  }

  /** Sufficient conditions for `Splitext` to split at index `k`: a dot
      there, no dot after it, no slash from it on, and a non-dot character `i`
      between the last slash and the dot. */
  lemma SplitextAt(q: string, k: int, i: int)
    requires 0 <= k < |q| && q[k] == '.'
    requires '.' !in q[k + 1..] && '/' !in q[k..]
    requires RFind(q, '/') < i < k && q[i] != '.'
    ensures Splitext(q) == (q[..k], q[k..])
  {
  }

  /** The shape `SplitextParts` guarantees of a non-empty split. */
  predicate ExtensionShape(name: string, ext: string)
  {
    && ext != "" && ext[0] == '.' && '.' !in ext[1..] && '/' !in ext
    && !AllDots(name[RFind(name, '/') + 1..])
  }

  /** Inserting dot-free, slash-free text between a stem and its extension
      keeps the extension and moves the text into the stem. */
  lemma SplitextInsert(name: string, t: string, ext: string)
    requires ExtensionShape(name, ext)
    requires '.' !in t && '/' !in t
    ensures Splitext(name + t + ext) == (name + t, ext)
  {
    var q := name + t + ext;
    var k := |name| + |t|;
    var sep := RFind(name, '/');
    assert q[k..] == ext && q[k + 1..] == ext[1..] && q[k] == '.';
    assert RFind(q, '/') == sep by {
      assert q == name + (t + ext);
      assert '/' !in t + ext;
      RFindConcat(name, t + ext, '/');
    }
    var i := NonDotIn(name, sep + 1);
    assert q[i] == name[i];
    SplitextAt(q, k, i);
    assert q[..k] == name + t;
  }

  /** A witness that `s[from..]` is not all dots. */
  lemma NonDotIn(s: string, from: int) returns (i: int)
    requires 0 <= from <= |s| && !AllDots(s[from..])
    ensures from <= i < |s| && s[i] != '.'
  {
    var i0 :| 0 <= i0 < |s[from..]| && s[from..][i0] != '.';
    i := from + i0;
  }

  /** The stored upload splits into the secured name's stem with "_" and the
      timestamp appended, and the secured name's extension, which may be
      empty. */
  lemma UniqueFilenameKeepsExtension(secured: string, timestamp: string)
    requires PlainStamp(timestamp)
    ensures Splitext(UniqueFilename(secured, timestamp)).1 == Splitext(secured).1
    ensures Splitext(UniqueFilename(secured, timestamp)).0
         == Splitext(secured).0 + "_" + timestamp
  {
    var name, ext := Splitext(secured).0, Splitext(secured).1;
    if ext == "" {
      assert UniqueFilename(secured, timestamp) == secured + ("_" + timestamp);
      SplitextAppend(secured, "_" + timestamp);
      assert secured + ("_" + timestamp) == name + "_" + timestamp;
    } else {
      assert UniqueFilename(secured, timestamp) == name + ("_" + timestamp) + ext;
      assert ExtensionShape(name, ext) by {
        SplitextParts(secured);
      }
      SplitextInsert(name, "_" + timestamp, ext);
      assert name + ("_" + timestamp) == name + "_" + timestamp;
    }
  }

  /** Appending dot-free, slash-free text to a name without an extension
      gives a name without an extension. */
  lemma SplitextAppend(s: string, t: string)
    requires Splitext(s).1 == ""
    requires '.' !in t && '/' !in t
    ensures Splitext(s + t) == (s + t, "")
  {
    var q := s + t;
    RFindConcat(s, t, '/');
    RFindConcat(s, t, '.');
    var sep, dot := RFind(s, '/'), RFind(s, '.');
    if dot > sep {
      assert q[sep + 1..dot] == s[sep + 1..dot];
    }
  }

  /** `allowed_file` judges the text after the last dot, while `splitext`
      does not count a leading dot as the start of an extension: a name made
      of one dot and an allowed extension passes the check and has no
      extension for `splitext`. */
  lemma AllowedWithoutExtension()
    ensures AllowedFile(".png") && Splitext(".png") == (".png", "")
  {
    var q := ".png";
    RFindAbsent(q, '/');
    assert q[1..] == "png";
    RFindUnique(q, '.', 0);
    PngIsAllowed();
    assert AllDots(q[0..0]);
  }

  /** "png", lower-cased, is an allowed extension. */
  lemma PngIsAllowed()
    ensures Lower("png") in AllowedExtensions
  {
    assert Lower("png") == "png";
  }

  /** The same with more than one leading dot. */
  lemma AllowedDotsWithoutExtension()
    ensures AllowedFile("..png") && Splitext("..png") == ("..png", "")
  {
    assert AllowedFile("..png") by {
      assert "..png" == "." + "." + "png";
      ExtensionRule(".", "png");
      PngIsAllowed();
    }
    LeadingDotsAreNotExtensions();
  }

  /** With a plain timestamp, `os.path.splitext` of the sketch name gives
      ".png", whatever the input's extension. */
  lemma SketchFilenameExtension(secured: string, timestamp: string)
    requires PlainStamp(timestamp)
    ensures Splitext(SketchFilename(secured, timestamp)).1 == ".png"
  {
    var name := Splitext(secured).0;
    var b := "sketch_" + name;
    var c := "_" + timestamp + ".png";
    var q := b + c;
    assert SketchFilename(secured, timestamp) == q;
    var k := |q| - 4;
    assert q[k..] == ".png" && q[k + 1..] == "png" && q[|b|] == '_';
    assert RFind(q, '/') < |b| by {
      assert '/' !in c by {
        assert c == "_" + timestamp + ".png";
      }
      RFindConcat(b, c, '/');
    }
    SplitextAt(q, k, |b|);
  }
}
