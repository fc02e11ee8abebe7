/**
 * The Python `str` operations the scripts rely on, over `string` (= `seq<char>`,
 * one char per Unicode code point, as Python's `str`).
 */
module Text {
  import opened Wrappers

  /** `s.startswith(p)`. */
  predicate StartsWith(s: string, p: string) {
    p <= s
  }

  /**
   * The characters Python's `str.isspace` accepts, which are the ones `str.strip()`
   * removes when called without an argument.
   */
  predicate IsSpace(c: char) {
    var n := c as int;
    (0x09 <= n <= 0x0D) || (0x1C <= n <= 0x20) || n == 0x85 || n == 0xA0 || n == 0x1680
    || (0x2000 <= n <= 0x200A) || n == 0x2028 || n == 0x2029 || n == 0x202F
    || n == 0x205F || n == 0x3000
  }

  /** `not s.strip()`: the string is empty or holds whitespace only. */
  predicate IsBlank(s: string) {
    forall i :: 0 <= i < |s| ==> IsSpace(s[i])
  }

  /** `s.split(sep)[0]`: the text before the first `sep`, or all of `s` when there is none. */
  function FirstField(s: string, sep: char): (r: string)
    ensures r <= s
    ensures sep !in r
    ensures |r| < |s| ==> s[|r|] == sep
    decreases |s|
  {
    if s == [] || s[0] == sep then "" else [s[0]] + FirstField(s[1..], sep)
  }

  /** `s.replace(".", "[.]")`: every dot becomes the bracketed token `[.]`. */
  function Defang(s: string): (r: string)
    decreases |s|
  {
    if s == [] then ""
    else (if s[0] == '.' then "[.]" else [s[0]]) + Defang(s[1..])
  }

  /**
   * The inverse of `Defang`: reading left to right, every `[.]` becomes a dot and
   * every other character is kept.
   */
  function Refang(t: string): (r: string)
    decreases |t|
  {
    if t == [] then ""
    else if |t| >= 3 && t[..3] == "[.]" then "." + Refang(t[3..])
    else [t[0]] + Refang(t[1..])
  }

  /** A defanged string never begins with a bare dot. */
  lemma DefangHead(s: string)
    ensures Defang(s) != [] ==> Defang(s)[0] != '.'
  {
  }

  /** Defanging loses nothing: the original string can always be recovered. */
  lemma {:induction false} RefangDefang(s: string)
    ensures Refang(Defang(s)) == s
    decreases |s|
  {
    if s != [] {
      var t := Defang(s[1..]);
      RefangDefang(s[1..]);
      if s[0] == '.' {
        assert Defang(s) == "[.]" + t;
        assert (("[.]" + t)[..3]) == "[.]";
        assert ("[.]" + t)[3..] == t;
      } else {
        assert Defang(s) == [s[0]] + t;
        DefangHead(s[1..]);
        assert ([s[0]] + t)[1..] == t;
        if |t| >= 2 {
          assert ([s[0]] + t)[1] == t[0];
        }
      }
    }
  }

  /** Every dot left in a defanged string sits inside a `[.]` token. */
  lemma {:induction false} DefangDotsBracketed(s: string)
    ensures forall i :: 0 <= i < |Defang(s)| && Defang(s)[i] == '.' ==>
      0 < i < |Defang(s)| - 1 && Defang(s)[i - 1] == '[' && Defang(s)[i + 1] == ']'
    decreases |s|
  {
    if s != [] {
      DefangDotsBracketed(s[1..]);
      var t := Defang(s[1..]);
      var h: string := if s[0] == '.' then "[.]" else [s[0]];
      assert Defang(s) == h + t;
      forall i | 0 <= i < |h + t| && (h + t)[i] == '.'
        ensures 0 < i < |h + t| - 1 && (h + t)[i - 1] == '[' && (h + t)[i + 1] == ']'
      {
        if i >= |h| {
          assert (h + t)[i] == t[i - |h|];
        }
      }
    }
  }

  /** Each dot grows into three characters; every other character is kept as it is. */
  lemma {:induction false} DefangLength(s: string)
    ensures |Defang(s)| == |s| + 2 * multiset(s)['.']
    decreases |s|
  {
    if s != [] {
      DefangLength(s[1..]);
      assert s == [s[0]] + s[1..];
      assert multiset(s) == multiset{s[0]} + multiset(s[1..]);
    }
  }

  /** `p` occurs in `s` starting at index `i`. */
  predicate OccursAt(s: string, p: string, i: nat) {
    i + |p| <= |s| && s[i..i + |p|] == p
  }

  lemma OccursAtTail(s: string, p: string, j: nat)
    requires s != []
    ensures OccursAt(s, p, j + 1) <==> OccursAt(s[1..], p, j)
  {
    if j + 1 + |p| <= |s| {
      assert s[1..][j..j + |p|] == s[j + 1..j + 1 + |p|];
    }
  }

  /** `s.find(p)`: the lowest index at which `p` occurs in `s`, or `None` (Python's -1). */
  function FindFirst(s: string, p: string): (r: Option<nat>)
    ensures r.Some? ==> OccursAt(s, p, r.value)
    ensures r.Some? ==> forall j: nat :: j < r.value ==> !OccursAt(s, p, j)
    ensures r.None? ==> forall j: nat :: !OccursAt(s, p, j)
    decreases |s|
  {
    if |p| > |s| then None
    else if s[..|p|] == p then Some(0)
    else
      var rest := FindFirst(s[1..], p);
      assert forall j: nat :: OccursAt(s, p, j + 1) <==> OccursAt(s[1..], p, j) by {
        forall j: nat ensures OccursAt(s, p, j + 1) <==> OccursAt(s[1..], p, j) {
          OccursAtTail(s, p, j);
        }
      }
      assert !OccursAt(s, p, 0);
      match rest
      case None =>
        assert forall j: nat :: !OccursAt(s, p, j) by {
          forall j: nat ensures !OccursAt(s, p, j) {
            if j > 0 { assert !OccursAt(s[1..], p, j - 1); }
          }
        }
        None
      case Some(i) =>
        assert forall j: nat :: j < i + 1 ==> !OccursAt(s, p, j) by {
          forall j: nat | j < i + 1 ensures !OccursAt(s, p, j) {
            if j > 0 { assert !OccursAt(s[1..], p, j - 1); }
          }
        }
        Some(i + 1)
  }

  /** Python's `p in s` on strings: `p` occurs at some index of `s`. */
  function Contains(s: string, p: string): (b: bool)
    ensures b <==> exists i: nat :: OccursAt(s, p, i)
  {
    FindFirst(s, p).Some?
  }

  /** A string occurs in any concatenation that has it as a part. */
  lemma ContainsAfter(a: string, b: string, c: string, d: string)
    ensures Contains(a + (b + c) + d, c)
  {
    var s := a + (b + c) + d;
    assert s[|a| + |b|..|a| + |b| + |c|] == c;
    assert OccursAt(s, c, |a| + |b|);
  }

  /**
   * `s.replace(pat, repl, 1)`: `s` itself when `pat` does not occur; otherwise
   * `repl` stands where the first occurrence was, and the text before and after
   * that occurrence is kept.
   */
  function ReplaceFirst(s: string, pat: string, repl: string): (r: string)
    ensures FindFirst(s, pat).None? ==> r == s
    ensures FindFirst(s, pat).Some? ==>
      var i := FindFirst(s, pat).value;
      && |r| == |s| - |pat| + |repl|
      && r[..i] == s[..i]
      && OccursAt(r, repl, i)
      && r[i + |repl|..] == s[i + |pat|..]
  {
    match FindFirst(s, pat)
    case None => s
    case Some(i) => s[..i] + repl + s[i + |pat|..]
  }

  /**
   * Replacing the first `pat`, found at `i`, by `pat + ins` inserts `ins` right
   * after that occurrence.
   */
  lemma ReplaceFirstAppends(s: string, pat: string, ins: string, i: nat)
    requires FindFirst(s, pat) == Some(i)
    ensures ReplaceFirst(s, pat, pat + ins) == s[..i + |pat|] + ins + s[i + |pat|..]
  {
    SpliceAt(s, pat, ins, i);
  }

  lemma SpliceAt(s: string, pat: string, ins: string, i: nat)
    requires OccursAt(s, pat, i)
    ensures s[..i] + (pat + ins) + s[i + |pat|..] == s[..i + |pat|] + ins + s[i + |pat|..]
  {
    var a := s[..i];
    assert s[..i + |pat|] == a + pat;
    assert a + (pat + ins) == (a + pat) + ins;
  }

  /** `sep.join(xs)`. */
  function Join(sep: string, xs: seq<string>): (r: string)
    decreases |xs|
  {
    if xs == [] then ""
    else if |xs| == 1 then xs[0]
    else xs[0] + sep + Join(sep, xs[1..])
  }

  /** `s.split(c)` for a one-character separator: always at least one piece. */
  function Split(s: string, c: char): (r: seq<string>)
    ensures |r| >= 1
    decreases |s|
  {
    if s == [] then [""]
    else
      var rest := Split(s[1..], c);
      if s[0] == c then [""] + rest else [[s[0]] + rest[0]] + rest[1..]
  }

  /** A piece without the separator is split off whole, and the split continues after it. */
  lemma {:induction false} SplitAfterPiece(a: string, c: char, t: string)
    requires c !in a
    ensures Split(a + [c] + t, c) == [a] + Split(t, c)
    decreases |a|
  {
    if a == [] {
      assert a + [c] + t == [c] + t;
      assert ([c] + t)[1..] == t;
    } else {
      assert (a + [c] + t)[1..] == a[1..] + [c] + t;
      SplitAfterPiece(a[1..], c, t);
      assert [a[0]] + a[1..] == a;
    }
  }

  /** A string without the separator splits into itself. */
  lemma {:induction false} SplitWhole(a: string, c: char)
    requires c !in a
    ensures Split(a, c) == [a]
    decreases |a|
  {
    if a != [] {
      SplitWhole(a[1..], c);
      assert [a[0]] + a[1..] == a;
    }
  }

  /** Splitting undoes joining, as long as no piece contains the separator. */
  lemma {:induction false} SplitJoin(xs: seq<string>, c: char)
    requires xs != []
    requires forall i :: 0 <= i < |xs| ==> c !in xs[i]
    ensures Split(Join([c], xs), c) == xs
    decreases |xs|
  {
    if |xs| == 1 {
      SplitWhole(xs[0], c);
    } else {
      SplitJoin(xs[1..], c);
      SplitAfterPiece(xs[0], c, Join([c], xs[1..]));
      assert [xs[0]] + xs[1..] == xs;
    }
  }

  /**
   * Python's `a <= b` on strings: lexicographic by code point, a proper prefix
   * coming first.
   */
  predicate LexLe(a: string, b: string)
    decreases |a|
  {
    if a == [] then true
    else if b == [] then false
    else if a[0] != b[0] then a[0] < b[0]
    else LexLe(a[1..], b[1..])
  }

  lemma {:induction false} LexLeReflexive(a: string)
    ensures LexLe(a, a)
    decreases |a|
  {
    if a != [] { LexLeReflexive(a[1..]); }
  }

  lemma {:induction false} LexLeTotal(a: string, b: string)
    ensures LexLe(a, b) || LexLe(b, a)
    decreases |a|
  {
    if a != [] && b != [] && a[0] == b[0] { LexLeTotal(a[1..], b[1..]); }
  }

  lemma {:induction false} LexLeAntisymmetric(a: string, b: string)
    requires LexLe(a, b) && LexLe(b, a)
    ensures a == b
    decreases |a|
  {
    if a != [] {
      LexLeAntisymmetric(a[1..], b[1..]);
      assert a == [a[0]] + a[1..] && b == [b[0]] + b[1..];
    }
  }

  lemma {:induction false} LexLeTransitive(a: string, b: string, c: string)
    requires LexLe(a, b) && LexLe(b, c)
    ensures LexLe(a, c)
    decreases |a|
  {
    if a != [] && b != [] && c != [] && a[0] == b[0] && b[0] == c[0] {
      LexLeTransitive(a[1..], b[1..], c[1..]);
    }
  }
}
