/**
 * File names as the pipeline sees them: Python's ordering of `str`, the
 * ASCII case mappings used by `str.lower()` and JavaScript's `toUpperCase()`,
 * and `os.path.splitext` with `/` as separator.
 */
module Names {

  /** Python's `a < b` on `str`: lexicographic order on code points. */
  predicate Less(a: string, b: string)
    decreases |a|
  {
    if a == [] then b != []
    else if b == [] then false
    else a[0] < b[0] || (a[0] == b[0] && Less(a[1..], b[1..]))
  }

  /** Python's `a <= b` on `str`. */
  predicate LessEq(a: string, b: string)
  {
    a == b || Less(a, b)
  }

  lemma {:induction false} LessTransitive(a: string, b: string, c: string)
    requires Less(a, b) && Less(b, c)
    ensures Less(a, c)
  {
    if a != [] && a[0] == b[0] && b[0] == c[0] {
      LessTransitive(a[1..], b[1..], c[1..]);
    }
  }

  /** Any two distinct names are ordered one way or the other. */
  lemma {:induction false} LessTotal(a: string, b: string)
    ensures a == b || Less(a, b) || Less(b, a)
  {
    if a != [] && b != [] && a[0] == b[0] {
      LessTotal(a[1..], b[1..]);
      if a[1..] == b[1..] {
        assert a == [a[0]] + a[1..] && b == [b[0]] + b[1..];
      }
    }
  }

  lemma LessEqTransitive(a: string, b: string, c: string)
    requires LessEq(a, b) && LessEq(b, c)
    ensures LessEq(a, c)
  {
    if a != b && b != c {
      LessTransitive(a, b, c);
    }
  }

  /** `str.lower()` on one character, ASCII letters only. */
  function LowerChar(c: char): (d: char)
  {
    if 'A' <= c <= 'Z' then (c as int + 32) as char else c
  }

  /** `str.lower()`, ASCII letters only. */
  function Lower(s: string): (r: string)
    ensures |r| == |s|
    ensures forall i :: 0 <= i < |s| ==> r[i] == LowerChar(s[i])
  {
    seq(|s|, i requires 0 <= i < |s| => LowerChar(s[i]))
  }

  /** JavaScript's `toUpperCase()` on one character, ASCII letters only. */
  function UpperChar(c: char): (d: char)
  {
    if 'a' <= c <= 'z' then (c as int - 32) as char else c
  }

  /** JavaScript's `toUpperCase()`, ASCII letters only. */
  function Upper(s: string): (r: string)
    ensures |r| == |s|
    ensures forall i :: 0 <= i < |s| ==> r[i] == UpperChar(s[i])
  {
    seq(|s|, i requires 0 <= i < |s| => UpperChar(s[i]))
  }

  /** Upper-casing twice changes nothing more: a stored tab label looks itself up. */
  lemma UpperIdempotent(s: string)
    ensures Upper(Upper(s)) == Upper(s)
  {
  }

  /** `s.rfind(c)`: the index of the last `c` in `s`, or -1. */
  function LastIndexOf(s: string, c: char): (i: int)
    ensures -1 <= i < |s|
    ensures i >= 0 ==> s[i] == c
    ensures forall k :: i < k < |s| ==> s[k] != c
  {
    if s == [] then -1
    else if s[|s| - 1] == c then |s| - 1
    else LastIndexOf(s[..|s| - 1], c)
  }

  /**
   * The condition under which `os.path.splitext` splits `p` at `dot`: the dot
   * lies in the last path component and some character of that component
   * before it is not a dot (leading dots do not start an extension).
   */
  predicate SplitsAt(p: string, sep: int, dot: int)
    requires -1 <= sep < |p| && -1 <= dot < |p|
  {
    dot > sep && exists k :: sep + 1 <= k < dot && p[k] != '.'
  }

  /** `os.path.splitext(p)` on POSIX: (root, ext) with root + ext == p. */
  function SplitExt(p: string): (r: (string, string))
    ensures r.0 + r.1 == p
  {
    var sep := LastIndexOf(p, '/');
    var dot := LastIndexOf(p, '.');
    if SplitsAt(p, sep, dot) then (p[..dot], p[dot..]) else (p, "")
  }

  /** `os.path.splitext(p)[0]` */
  function Stem(p: string): string { SplitExt(p).0 }

  /** `os.path.splitext(p)[1]` */
  function Ext(p: string): string { SplitExt(p).1 }

  /** The last path component of `p` holds a character other than a dot. */
  predicate HasStem(p: string)
  {
    exists k :: LastIndexOf(p, '/') < k < |p| && p[k] != '.'
  }

  /**
   * What an extension looks like: empty, or a dot followed by neither a dot
   * nor a separator; and a non-empty extension leaves a real stem in front.
   */
  lemma ExtShape(p: string)
    ensures Ext(p) == "" || (Ext(p)[0] == '.' && forall k :: 0 < k < |Ext(p)| ==> Ext(p)[k] != '.' && Ext(p)[k] != '/')
    ensures Ext(p) != "" ==> Ext(p)[0] == '.' && HasStem(Stem(p))
  {
    var sep := LastIndexOf(p, '/');
    var dot := LastIndexOf(p, '.');
    if SplitsAt(p, sep, dot) {
      var stem := p[..dot];
      var k :| sep + 1 <= k < dot && p[k] != '.';
      LastIndexOfUnique(stem, '/', sep);
      assert stem[k] != '.';
    }
  }

  /** Any index that behaves like the last `c` of `s` is the one `LastIndexOf` finds. */
  lemma {:induction false} LastIndexOfUnique(s: string, c: char, i: int)
    requires -1 <= i < |s|
    requires i >= 0 ==> s[i] == c
    requires forall k :: i < k < |s| ==> s[k] != c
    ensures LastIndexOf(s, c) == i
  {
    if s != [] && s[|s| - 1] != c {
      LastIndexOfUnique(s[..|s| - 1], c, i);
    }
  }

  /** Appending text without `c` keeps the last `c` where it was. */
  lemma LastIndexOfAppendWithout(a: string, b: string, c: char)
    requires forall k :: 0 <= k < |b| ==> b[k] != c
    ensures LastIndexOf(a + b, c) == LastIndexOf(a, c)
  {
    LastIndexOfUnique(a + b, c, LastIndexOf(a, c));
  }

  /**
   * Splitting a stem followed by an extension gives them back: the rule the
   * image optimiser relies on when it rewrites an extension.
   */
  lemma SplitExtAppend(stem: string, ext: string)
    requires HasStem(stem)
    requires |ext| >= 1 && ext[0] == '.'
    requires forall k :: 0 < k < |ext| ==> ext[k] != '.' && ext[k] != '/'
    ensures SplitExt(stem + ext) == (stem, ext)
  {
    var p := stem + ext;
    LastIndexOfAppendWithout(stem, ext, '/');
    LastIndexOfUnique(p, '.', |stem|);
    var sep := LastIndexOf(p, '/');
    var dot := LastIndexOf(p, '.');
    var k :| LastIndexOf(stem, '/') < k < |stem| && stem[k] != '.';
    assert p[k] != '.';
    assert SplitsAt(p, sep, dot);
    assert p[..dot] == stem && p[dot..] == ext;
  }

  /** Lower-casing moves no dot and no separator. */
  lemma LowerLastIndexOf(p: string, c: char)
    requires c == '.' || c == '/'
    ensures LastIndexOf(Lower(p), c) == LastIndexOf(p, c)
  {
    LastIndexOfUnique(Lower(p), c, LastIndexOf(p, c));
  }

  /**
   * `os.path.splitext(f.lower())[1]` is the lower-cased extension of `f`, and
   * the two split at the same place.
   */
  lemma ExtOfLower(p: string)
    ensures |Stem(Lower(p))| == |Stem(p)|
    ensures Ext(Lower(p)) == Lower(Ext(p))
  {
    LowerLastIndexOf(p, '.');
    LowerLastIndexOf(p, '/');
    var sep := LastIndexOf(p, '/');
    var dot := LastIndexOf(p, '.');
    var q := Lower(p);
    assert SplitsAt(p, sep, dot) ==> SplitsAt(q, sep, dot) by {
      if SplitsAt(p, sep, dot) {
        var k :| sep + 1 <= k < dot && p[k] != '.';
        assert q[k] == LowerChar(p[k]);
      }
    }
    assert SplitsAt(q, sep, dot) ==> SplitsAt(p, sep, dot) by {
      if SplitsAt(q, sep, dot) {
        var k :| sep + 1 <= k < dot && q[k] != '.';
        assert q[k] == LowerChar(p[k]);
      }
    }
    if SplitsAt(p, sep, dot) {
      assert Ext(q) == q[dot..];
      assert Lower(p[dot..]) == q[dot..];
    }
  }

  /** Worked examples of `os.path.splitext`: the last dot of the last component starts the extension. */
  lemma SplitExtExamples()
    ensures SplitExt("photo.heic") == ("photo", ".heic")
    ensures SplitExt("a.b.jpg") == ("a.b", ".jpg")
  {
    assert HasStem("photo") by { assert "photo"[0] != '.'; }
    SplitExtAppend("photo", ".heic");
    assert "photo" + ".heic" == "photo.heic";
    assert HasStem("a.b") by { assert "a.b"[0] != '.'; }
    SplitExtAppend("a.b", ".jpg");
    assert "a.b" + ".jpg" == "a.b.jpg";
  }

  /** Leading dots do not start an extension. */
  lemma LeadingDotsExamples()
    ensures SplitExt(".hidden") == (".hidden", "")
    ensures SplitExt("..png") == ("..png", "")
  {
    LastIndexOfUnique(".hidden", '/', -1);
    LastIndexOfUnique(".hidden", '.', 0);
    LastIndexOfUnique("..png", '/', -1);
    LastIndexOfUnique("..png", '.', 1);
  }
}
