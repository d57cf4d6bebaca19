/** The two decisions `Run` takes from its inputs alone: which paths to read and
    write, given the argument count, and which encoder to use, given the output
    path's extension. */
module Dispatch {

  /** What the argument vector (program name first, as in `os.Args`) asks for. */
  datatype Invocation = Usage | Paths(input: string, output: string)

  /** One or two file arguments; anything else prints the usage text. */
  function SelectPaths(args: seq<string>): (r: Invocation)
    ensures r.Usage? <==> |args| < 2 || |args| > 3
    ensures r.Paths? ==> r.input == args[1] && r.output == args[|args| - 1]
  {
    if |args| < 2 || |args| > 3 then Usage
    else if |args| == 3 then Paths(args[1], args[2])
    else Paths(args[1], args[1])
  }

  /** With only an input path, the output overwrites the input. */
  lemma InPlaceWithoutOutput(args: seq<string>)
    requires |args| == 2
    ensures SelectPaths(args) == Paths(args[1], args[1])
  {
  }

  /** `filepath.Ext` with `/` as the separator: the suffix from the last `.` of
      the final path element, or the empty string when that element has none. */
  function Ext(path: string): string
    decreases |path|
  {
    if path == [] || path[|path| - 1] == '/' then ""
    else if path[|path| - 1] == '.' then "."
    else
      var e := Ext(path[..|path| - 1]);
      if e == "" then "" else e + [path[|path| - 1]]
  }

  /** The extension is a suffix of the path. A non-empty one is a dot followed by
      neither dots nor separators; an empty one means every dot of the path lies
      in a directory name. */
  lemma {:induction false} ExtIsFinalDotSuffix(path: string)
    ensures |Ext(path)| <= |path| && Ext(path) == path[|path| - |Ext(path)|..]
    ensures Ext(path) != [] ==>
      Ext(path)[0] == '.' && forall k :: 1 <= k < |Ext(path)| ==> Ext(path)[k] != '.' && Ext(path)[k] != '/'
    ensures Ext(path) == [] ==> forall k :: 0 <= k < |path| && path[k] == '.' ==> '/' in path[k + 1..]
    decreases |path|
  {
    if path != [] && path[|path| - 1] != '/' && path[|path| - 1] != '.' {
      var init := path[..|path| - 1];
      ExtIsFinalDotSuffix(init);
      if Ext(init) != [] {
        assert Ext(path) == Ext(init) + [path[|path| - 1]];
        assert path == init + [path[|path| - 1]];
      } else {
        forall k | 0 <= k < |path| && path[k] == '.' ensures '/' in path[k + 1..] {
          assert k < |init| && init[k] == '.';
          assert init[k + 1..] <= path[k + 1..];
        }
      }
    } else if path != [] && path[|path| - 1] == '/' {
      forall k | 0 <= k < |path| && path[k] == '.' ensures '/' in path[k + 1..] {
        assert path[k + 1..][|path| - k - 2] == '/';
      }
    }
  }

  /** A suffix made of a dot and then neither dots nor separators is the extension,
      whatever comes before it. */
  lemma {:induction false} ExtOfSuffix(stem: string, e: string)
    requires |e| >= 1 && e[0] == '.'
    requires forall k :: 1 <= k < |e| ==> e[k] != '.' && e[k] != '/'
    ensures Ext(stem + e) == e
    decreases |e|
  {
    var path := stem + e;
    var last := path[|path| - 1];
    assert last == e[|e| - 1];
    if |e| == 1 {
      assert last == '.';
    } else {
      var init := e[..|e| - 1];
      ExtOfSuffix(stem, init);
      assert path[..|path| - 1] == stem + init;
      assert last != '/' && last != '.';
      assert Ext(path) == Ext(stem + init) + [last];
      assert init + [last] == e;
    }
  }

  /** A dot in a directory name is not an extension. */
  lemma {:induction false} ExtIgnoresDirectories(dir: string, name: string)
    requires forall k :: 0 <= k < |name| ==> name[k] != '.' && name[k] != '/'
    ensures Ext(dir + "/" + name) == ""
    decreases |name|
  {
    if name != [] {
      var init := name[..|name| - 1];
      ExtIgnoresDirectories(dir, init);
      assert (dir + "/" + name)[..|dir + "/" + name| - 1] == dir + "/" + init;
    }
  }

  /** `unicode.ToLower` restricted to ASCII: a capital letter becomes its small
      letter, every other character stays. */
  function LowerChar(c: char): (r: char)
    ensures !('A' <= r <= 'Z')
    ensures 'A' <= c <= 'Z' ==> 'a' <= r <= 'z' && r as int - 'a' as int == c as int - 'A' as int
    ensures !('A' <= c <= 'Z') ==> r == c
  {
    if 'A' <= c <= 'Z' then (c as int - 'A' as int + 'a' as int) as char else c
  }

  /** `strings.ToLower` restricted to ASCII: character by character, each capital
      letter becomes its matching small letter and nothing else changes. */
  function Lower(s: string): (r: string)
    ensures |r| == |s|
    ensures forall k :: 0 <= k < |r| ==> !('A' <= r[k] <= 'Z') && ('A' <= s[k] <= 'Z' || r[k] == s[k])
    ensures forall k :: 0 <= k < |s| && 'A' <= s[k] <= 'Z' ==> r[k] as int - 'a' as int == s[k] as int - 'A' as int
  {
    seq(|s|, k requires 0 <= k < |s| => LowerChar(s[k]))
  }

  /** The encoders `Run` can write with. */
  datatype Codec = Png | Jpeg(Quality: int) | Gif | Bmp | Unknown(ext: string)

  const Supported: set<string> := {".png", ".jpg", ".jpeg", ".gif", ".bmp"}

  /** The encoder chosen by the lower-cased extension of the output path; JPEG
      always at quality 100; any other extension is reported back, lower-cased. */
  function SelectCodec(outPath: string): (c: Codec)
    ensures c == Png <==> Lower(Ext(outPath)) == ".png"
    ensures c == Jpeg(100) <==> Lower(Ext(outPath)) == ".jpg" || Lower(Ext(outPath)) == ".jpeg"
    ensures c == Gif <==> Lower(Ext(outPath)) == ".gif"
    ensures c == Bmp <==> Lower(Ext(outPath)) == ".bmp"
    ensures c.Unknown? <==> Lower(Ext(outPath)) !in Supported
    ensures c.Unknown? ==> c.ext == Lower(Ext(outPath))
    // a corollary of the clauses above, stated for the reader
    ensures c.Jpeg? ==> c.Quality == 100
  {
    var imgType := Lower(Ext(outPath));
    if imgType == ".png" then Png
    else if imgType == ".jpg" || imgType == ".jpeg" then Jpeg(100)
    else if imgType == ".gif" then Gif
    else if imgType == ".bmp" then Bmp
    else Unknown(imgType)
  }

  /** A suffix that lower-cases to a dot followed by neither dots nor separators
      is the extension, whatever its case and whatever comes before it. */
  lemma LoweredSuffix(stem: string, e: string)
    requires |e| >= 1 && Lower(e)[0] == '.'
    requires forall k :: 1 <= k < |e| ==> Lower(e)[k] != '.' && Lower(e)[k] != '/'
    ensures Lower(Ext(stem + e)) == Lower(e)
  {
    forall k | 0 <= k < |e| ensures (e[k] == '.') == (Lower(e)[k] == '.') && (e[k] == '/') == (Lower(e)[k] == '/') {
      assert Lower(e)[k] == LowerChar(e[k]);
    }
    ExtOfSuffix(stem, e);
  }

  /** A file name ending in `.png`, in any mix of cases, selects the PNG encoder. */
  lemma PngAnyCase(stem: string, e: string)
    requires Lower(e) == ".png"
    ensures SelectCodec(stem + e) == Png
  {
    LoweredSuffix(stem, e);
  }

  /** `.jpg` and `.jpeg`, in any mix of cases, select JPEG at quality 100. */
  lemma JpegAnyCase(stem: string, e: string)
    requires Lower(e) == ".jpg" || Lower(e) == ".jpeg"
    ensures SelectCodec(stem + e) == Jpeg(100)
  {
    LoweredSuffix(stem, e);
  }

  /** A file name ending in `.gif`, in any mix of cases, selects the GIF encoder. */
  lemma GifAnyCase(stem: string, e: string)
    requires Lower(e) == ".gif"
    ensures SelectCodec(stem + e) == Gif
  {
    LoweredSuffix(stem, e);
  }

  /** A file name ending in `.bmp`, in any mix of cases, selects the BMP encoder. */
  lemma BmpAnyCase(stem: string, e: string)
    requires Lower(e) == ".bmp"
    ensures SelectCodec(stem + e) == Bmp
  {
    LoweredSuffix(stem, e);
  }

  /** Any other extension is refused and reported back lower-cased. */
  lemma UnsupportedIsUnknown(stem: string, e: string)
    requires |e| >= 1 && Lower(e)[0] == '.'
    requires forall k :: 1 <= k < |e| ==> Lower(e)[k] != '.' && Lower(e)[k] != '/'
    requires Lower(e) !in Supported
    ensures SelectCodec(stem + e) == Unknown(Lower(e))
  {
    LoweredSuffix(stem, e);
  }

  /** `.TIFF` is not supported and is reported back as `.tiff`. */
  lemma TiffIsUnknown(stem: string)
    ensures SelectCodec(stem + ".TIFF") == Unknown(".tiff")
  {
    assert Lower(".TIFF") == ".tiff";
    UnsupportedIsUnknown(stem, ".TIFF");
  }

  /** A path whose final element has no dot selects no encoder. */
  lemma NoExtensionIsUnknown(dir: string, name: string)
    requires forall k :: 0 <= k < |name| ==> name[k] != '.' && name[k] != '/'
    ensures SelectCodec(dir + "/" + name) == Unknown("")
  {
    ExtIgnoresDirectories(dir, name);
  }
}
