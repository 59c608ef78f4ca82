/** Local file and directory names: `sanitize_filename`, the name an image or
    PDF URL is saved under, the collision rename of the image-tag pass,
    `os.path.join` and the numbered module directory name. */
module Names {
  import opened Text

  /** The characters `sanitize_filename` deletes: `\ / * ? : " < > |`. */
  predicate Forbidden(c: char)
  {
    c in {'\\', '/', '*', '?', ':', '"', '<', '>', '|'}
  }

  predicate Clean(s: string)
  {
    forall i :: 0 <= i < |s| ==> !Forbidden(s[i])
  }

  /** The `re.sub` step of `sanitize_filename`: every character that is not
      forbidden, in order. */
  function DropForbidden(s: string): (r: string)
    ensures Clean(r) && |r| <= |s|
    ensures Clean(s) ==> r == s
    ensures forall c :: c in r <==> c in s && !Forbidden(c)
  {
    if s == [] then []
    else if Forbidden(s[0]) then DropForbidden(s[1..])
    else [s[0]] + DropForbidden(s[1..])
  }

  /** The characters kept keep their order: dropping from a concatenation
      drops from each part. */
  lemma {:induction false} DropForbiddenAppend(a: string, b: string)
    ensures DropForbidden(a + b) == DropForbidden(a) + DropForbidden(b)
  {
    if a != [] {
      assert (a + b)[0] == a[0] && (a + b)[1..] == a[1..] + b;
      DropForbiddenAppend(a[1..], b);
    } else {
      assert a + b == b;
    }
  }

  /** `sanitize_filename(name)`: forbidden characters removed, then stripped. */
  function Sanitize(name: string): string
  {
    Strip(DropForbidden(name))
  }

  lemma CleanSlice(s: string, i: nat, j: nat)
    requires Clean(s) && i <= j <= |s|
    ensures Clean(s[i..j])
  {
    assert forall k :: 0 <= k < j - i ==> s[i..j][k] == s[i + k];
  }

  /** What `sanitize_filename` promises: none of the nine characters, no
      whitespace at either end. */
  lemma SanitizeClean(name: string)
    ensures Clean(Sanitize(name))
    ensures Sanitize(name) == [] || (!IsSpace(Sanitize(name)[0]) && !IsSpace(Sanitize(name)[|Sanitize(name)| - 1]))
  {
    var d := DropForbidden(name);
    CleanSlice(d, LeadingSpace(d), LeadingSpace(d) + |Strip(d)|);
  }

  /** Sanitizing an already sanitized name changes nothing. */
  lemma SanitizeIdempotent(name: string)
    ensures Sanitize(Sanitize(name)) == Sanitize(name)
  {
    var s := Sanitize(name);
    SanitizeClean(name);
    assert DropForbidden(s) == s;
    StripFixedPoint(s);
  }

  /** Index of the last `c` in `s`, or -1 (`str.rfind`). */
  function LastIndex(s: string, c: char): (k: int)
    ensures -1 <= k < |s|
    ensures k >= 0 ==> s[k] == c
    ensures forall j :: k < j < |s| ==> s[j] != c
  {
    if s == [] then -1
    else if s[|s| - 1] == c then |s| - 1
    else LastIndex(s[..|s| - 1], c)
  }

  /** The last `c` of `a + [c] + b` is the one after `a` when `b` has none. */
  lemma {:induction false} LastIndexBefore(a: string, c: char, b: string)
    requires c !in b
    ensures LastIndex(a + [c] + b, c) == |a|
  {
    if b != [] {
      var p := a + [c] + b;
      assert p[..|p| - 1] == a + [c] + b[..|b| - 1];
      LastIndexBefore(a, c, b[..|b| - 1]);
    }
  }

  /** `os.path.basename(p)`: the text after the last `/`. */
  function Basename(p: string): (r: string)
    ensures '/' !in r
    ensures |r| <= |p| && r == p[|p| - |r|..]
    ensures |r| == |p| || p[|p| - |r| - 1] == '/'
  {
    p[LastIndex(p, '/') + 1..]
  }

  /** `os.path.splitext(p)`: the extension starts at the last dot of the last
      path component, unless only dots precede that dot in the component. */
  function SplitExt(p: string): (r: (string, string))
    ensures r.0 + r.1 == p
    ensures r.1 == [] || (r.1[0] == '.' && '.' !in r.1[1..] && '/' !in r.1)
    ensures r.1 != [] <==> HasExt(p)
    ensures HasExt(p) ==> r.1 == p[LastIndex(p, '.')..]
  {
    if HasExt(p) then
      var dot := LastIndex(p, '.');
      NoneAfter(p, '.', dot + 1);
      NoneAfter(p, '/', dot);
      assert p[dot..][1..] == p[dot + 1..];
      (p[..dot], p[dot..])
    else (p, [])
  }

  /** Nothing after the last `c` is a `c`. */
  lemma NoneAfter(p: string, c: char, from: nat)
    requires LastIndex(p, c) < from <= |p|
    ensures c !in p[from..]
  {
  }

  /** The name the image-tag pass gives an image whose derived name is
      already taken: `f"{base}_{n}{ext}"`. */
  function Renamed(name: string, n: int): string
  {
    var (base, ext) := SplitExt(name);
    base + "_" + Decimal(n) + ext
  }

  /** A rename never gives back the name it replaces. */
  lemma RenamedDiffers(name: string, n: int)
    ensures Renamed(name, n) != name
    ensures |Renamed(name, n)| > |name|
  {
  }

  lemma {:induction false} LastIndexAppend(a: string, b: string, c: char)
    requires c !in b
    ensures LastIndex(a + b, c) == LastIndex(a, c)
  {
    if b != [] {
      var p := a + b;
      assert p[|p| - 1] == b[|b| - 1] != c;
      assert p[..|p| - 1] == a + b[..|b| - 1];
      LastIndexAppend(a, b[..|b| - 1], c);
    } else {
      assert a + b == a;
    }
  }

  lemma DecimalHasNoDot(n: int)
    ensures '.' !in Decimal(n) && '/' !in Decimal(n) && '_' !in Decimal(n)
  {
    var d := NatString(if n < 0 then -n else n);
    assert Decimal(n) == d || Decimal(n) == "-" + d;
  }

  /** `p` has an extension in the sense of `os.path.splitext`. */
  predicate HasExt(p: string)
  {
    var sep, dot := LastIndex(p, '/'), LastIndex(p, '.');
    dot > sep && exists i :: sep + 1 <= i < dot && p[i] != '.'
  }

  lemma SplitExtCases(p: string)
    ensures HasExt(p) ==> SplitExt(p) == (p[..LastIndex(p, '.')], p[LastIndex(p, '.')..])
    ensures !HasExt(p) ==> SplitExt(p) == (p, [])
  {
  }

  /** The renamed file keeps the extension of the name it replaces:
      `os.path.splitext` finds the same extension in both. */
  lemma RenamedKeepsExtension(name: string, n: int)
    ensures SplitExt(Renamed(name, n)).1 == SplitExt(name).1
  {
    var mid := "_" + Decimal(n);
    assert '.' !in mid && '/' !in mid by {
      DecimalHasNoDot(n);
    }
    var (base, ext) := SplitExt(name);
    Regroup(base, "_", Decimal(n), ext);
    if ext != [] {
      RenamedWithExt(base, ext, mid);
    } else {
      NoExtension(name);
      RenamedWithoutExt(name, mid);
    }
  }

  lemma Regroup(a: string, b: string, c: string, d: string)
    ensures a + b + c + d == a + (b + c) + d
  {
  }

  lemma NoExtension(p: string)
    requires SplitExt(p).1 == []
    ensures !HasExt(p) && SplitExt(p).0 == p
  {
    SplitExtCases(p);
  }

  lemma RenamedWithExt(base: string, ext: string, mid: string)
    requires ext != [] && ext[0] == '.' && '.' !in ext[1..] && '/' !in ext
    requires '.' !in mid && '/' !in mid && mid != [] && mid[0] == '_'
    ensures SplitExt(base + mid + ext).1 == ext
  {
    var r := base + mid + ext;
    assert r == (base + mid) + ['.'] + ext[1..];
    LastIndexBefore(base + mid, '.', ext[1..]);
    LastIndexAppend(base + mid, ext, '/');
    LastIndexAppend(base, mid, '/');
    var dot := |base + mid|;
    assert r[|base|] == '_';
    assert HasExt(r);
    SplitExtCases(r);
    assert r[dot..] == ext;
  }

  lemma RenamedWithoutExt(name: string, mid: string)
    requires !HasExt(name)
    requires '.' !in mid && '/' !in mid
    ensures SplitExt(name + mid).1 == []
  {
    var r := name + mid;
    LastIndexAppend(name, mid, '.');
    LastIndexAppend(name, mid, '/');
    var sep, dot := LastIndex(name, '/'), LastIndex(name, '.');
    assert forall i :: 0 <= i < |name| ==> r[i] == name[i];
    assert !HasExt(r);
    SplitExtCases(r);
  }

  predicate IsHex(c: char)
  {
    ('0' <= c <= '9') || ('a' <= c <= 'f') || ('A' <= c <= 'F')
  }

  function HexValue(c: char): (v: nat)
    requires IsHex(c)
    ensures v < 16
  {
    if '0' <= c <= '9' then c as int - '0' as int
    else if 'a' <= c <= 'f' then c as int - 'a' as int + 10
    else c as int - 'A' as int + 10
  }

  /** True when `s` begins with a `%XX` escape of an ASCII character. */
  predicate AsciiEscapeAt(s: string)
  {
    |s| >= 3 && s[0] == '%' && IsHex(s[1]) && IsHex(s[2]) && HexValue(s[1]) < 8
  }

  /** `urllib.parse.unquote(s)` for escapes of ASCII characters: each `%XX`
      (hex, either case) below `%80` becomes its character, scanning left to
      right; anything else is kept. */
  function Unquote(s: string): (r: string)
    ensures |r| <= |s|
    ensures '%' !in s ==> r == s
  {
    if s == [] then []
    else if AsciiEscapeAt(s) then
      [(16 * HexValue(s[1]) + HexValue(s[2])) as char] + Unquote(s[3..])
    else [s[0]] + Unquote(s[1..])
  }

  function HexDigit(d: nat): (c: char)
    requires d < 16
    ensures IsHex(c) && HexValue(c) == d
  {
    if d < 10 then ('0' as int + d) as char else ('A' as int + d - 10) as char
  }

  /** Percent-escapes every character of an ASCII string (the inverse
      direction of `Unquote`). */
  function Quote(s: string): (r: string)
    requires forall i :: 0 <= i < |s| ==> s[i] as int < 128
  {
    if s == [] then []
    else [ '%', HexDigit(s[0] as int / 16), HexDigit(s[0] as int % 16) ] + Quote(s[1..])
  }

  /** Unquoting undoes percent-escaping of ASCII text. */
  lemma {:induction false} UnquoteQuote(s: string)
    requires forall i :: 0 <= i < |s| ==> s[i] as int < 128
    ensures Unquote(Quote(s)) == s
  {
    if s != [] {
      var q := Quote(s);
      assert AsciiEscapeAt(q);
      assert q[3..] == Quote(s[1..]);
      UnquoteQuote(s[1..]);
    }
  }

  /** `url.split('?')[0]`: the URL up to its first `?`. */
  function BeforeQuery(url: string): (r: string)
    ensures |r| <= |url| && '?' !in r && r == url[..|r|]
    ensures |r| < |url| ==> url[|r|] == '?'
  {
    Split(url, '?')[0]
  }

  /** The local name of an image:
      `sanitize_filename(os.path.basename(unquote(url.split('?')[0])))`. */
  function ImageName(url: string): string
  {
    Sanitize(Basename(Unquote(BeforeQuery(url))))
  }

  /** The local name of a PDF: `os.path.basename(unquote(url))`, with no
      sanitizing and no query split. */
  function PdfName(url: string): (r: string)
    ensures '/' !in r
  {
    Basename(Unquote(url))
  }

  /** `os.path.join(dir, name)` for two components. */
  function PathJoin(dir: string, name: string): (r: string)
  {
    if |name| > 0 && name[0] == '/' then name
    else if dir == [] || dir[|dir| - 1] == '/' then dir + name
    else dir + "/" + name
  }

  /** A name without `/` lands directly inside a directory whose path has no
      trailing `/`: joining adds exactly one separator. */
  lemma JoinInside(dir: string, name: string)
    requires dir != [] && dir[|dir| - 1] != '/'
    requires '/' !in name
    ensures PathJoin(dir, name) == dir + "/" + name
    ensures Basename(PathJoin(dir, name)) == name
  {
    LastIndexBefore(dir, '/', name);
    assert PathJoin(dir, name) == dir + ['/'] + name;
  }

  /** The directory of the module at 0-based position `i`:
      `f"{i+1}. {sanitize_filename(title)}"`. */
  function ModuleDirName(i: nat, title: string): string
  {
    Decimal(i + 1) + ". " + Sanitize(title)
  }

  /** The ordinal can be read back from a module directory name: the text
      before its first dot is the 1-based position. So two modules at
      different positions never share a directory. */
  lemma ModuleDirOrdinal(i: nat, title: string)
    ensures ParseInt(Split(ModuleDirName(i, title), '.')[0]) == Some(i + 1)
  {
    var d := Decimal(i + 1);
    var n := ModuleDirName(i, title);
    assert '.' !in d by {
      assert d == NatString(i + 1);
    }
    assert n == d + ['.'] + (" " + Sanitize(title));
    IndexOfAfter(d, '.', " " + Sanitize(title));
    assert n[..|d|] == d;
    ParseDecimal(i + 1);
  }

  lemma ModuleDirNamesDistinct(i: nat, j: nat, t: string, u: string)
    requires i != j
    ensures ModuleDirName(i, t) != ModuleDirName(j, u)
  {
    ModuleDirOrdinal(i, t);
    ModuleDirOrdinal(j, u);
  }

  /** The name an image is saved under ignores everything from the first `?`. */
  lemma BeforeQueryOf(a: string, b: string)
    requires '?' !in a
    ensures BeforeQuery(a + ['?'] + b) == a
  {
    IndexOfAfter(a, '?', b);
    assert (a + ['?'] + b)[..|a|] == a;
  }

  /** For a URL without percent-escapes whose last path component is
      already a clean file name, the image is saved under that component and
      the query is ignored. */
  lemma ImageNameOfPlainUrl(path: string, file: string, query: string)
    requires '?' !in path && '?' !in file && '%' !in path && '%' !in file
    requires '/' !in file && Clean(file)
    requires file == [] || (!IsSpace(file[0]) && !IsSpace(file[|file| - 1]))
    ensures ImageName(path + "/" + file + "?" + query) == file
  {
    var b := path + ['/'] + file;
    assert path + "/" + file + "?" + query == b + ['?'] + query;
    BeforeQueryOf(b, query);
    assert '%' !in b;
    LastIndexBefore(path, '/', file);
    assert b[|path| + 1..] == file;
    StripFixedPoint(file);
  }

  lemma ImageNameExample()
    ensures ImageName("https://host/path/img.png?x=1") == "img.png"
  {
    assert "https://host/path/img.png?x=1" == "https://host/path" + "/" + "img.png" + "?" + "x=1";
    assert Clean("img.png");
    ImageNameOfPlainUrl("https://host/path", "img.png", "x=1");
  }
}
