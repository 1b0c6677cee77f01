/** The string operations both batch scripts apply to file names:
    `str.endswith`, `str.lower`, `sorted`, list filtering and `str.replace`. */
module Names {

  /** `s.endswith(suffix)`: `s` is some prefix followed by `suffix`. */
  predicate EndsWith(s: string, suffix: string): (b: bool)
    ensures b <==> |suffix| <= |s| && s == s[..|s| - |suffix|] + suffix
  {
    |suffix| <= |s| && s[|s| - |suffix|..] == suffix
  }

  /** `str.lower()` on one character, for the ASCII letters. */
  function LowerChar(c: char): (d: char)
    ensures 'A' <= c <= 'Z' ==> 'a' <= d <= 'z' && d as int - c as int == 32
    ensures !('A' <= c <= 'Z') ==> d == c
  {
    if 'A' <= c <= 'Z' then (c as int + 32) as char else c
  }

  /** `s.lower()`. */
  function Lower(s: string): (r: string)
    ensures |r| == |s|
  {
    if s == [] then [] else [LowerChar(s[0])] + Lower(s[1..])
  }

  /** Lower-casing works character by character, so it distributes over concatenation. */
  lemma {:induction false} LowerAppend(p: string, q: string)
    ensures Lower(p + q) == Lower(p) + Lower(q)
    decreases |p|
  {
    if p == [] {
      assert p + q == q;
    } else {
      assert (p + q)[1..] == p[1..] + q;
      LowerAppend(p[1..], q);
    }
  }

  /** The lower-cased tail of a name is the tail of the lower-cased name. */
  lemma LowerSuffix(s: string, k: nat)
    requires k <= |s|
    ensures Lower(s)[k..] == Lower(s[k..])
  {
    LowerAppend(s[..k], s[k..]);
    assert s == s[..k] + s[k..];
  }

  /** A name ending in `.png` still ends in `.png` once lower-cased. */
  lemma LowerEndsWithPng(stem: string)
    ensures EndsWith(Lower(stem + ".png"), ".png")
  {
    LowerAppend(stem, ".png");
    assert Lower(".png") == ".png";
  }

  // ---------------------------------------------------------------------
  // Python's ordering of `str`: code point by code point, a proper prefix first.

  /** A prefix comes first, and nothing longer comes before its own prefix. */
  predicate LexLe(a: string, b: string): (r: bool)
    ensures a <= b ==> r
    ensures r && b <= a ==> a == b
    decreases |a|
  {
    |a| == 0 || (|b| > 0 && (a[0] < b[0] || (a[0] == b[0] && LexLe(a[1..], b[1..]))))
  }

  lemma {:induction false} LexLeTotal(a: string, b: string)
    ensures LexLe(a, b) || LexLe(b, a)
    decreases |a|
  {
    if |a| > 0 && |b| > 0 && a[0] == b[0] {
      LexLeTotal(a[1..], b[1..]);
    }
  }

  lemma {:induction false} LexLeTransitive(a: string, b: string, c: string)
    requires LexLe(a, b) && LexLe(b, c)
    ensures LexLe(a, c)
    decreases |a|
  {
    if |a| > 0 && a[0] == b[0] && b[0] == c[0] {
      LexLeTransitive(a[1..], b[1..], c[1..]);
    }
  }

  lemma {:induction false} LexLeAntisymmetric(a: string, b: string)
    requires LexLe(a, b) && LexLe(b, a)
    ensures a == b
    decreases |a|
  {
    if |a| > 0 {
      LexLeAntisymmetric(a[1..], b[1..]);
      assert a == [a[0]] + a[1..] && b == [b[0]] + b[1..];
    }
  }

  /** Ascending order, as `sorted` leaves a list. */
  predicate Sorted(s: seq<string>) {
    forall i, j :: 0 <= i < j < |s| ==> LexLe(s[i], s[j])
  }

  function Insert(x: string, s: seq<string>): (r: seq<string>)
    requires Sorted(s)
    ensures Sorted(r)
    ensures multiset(r) == multiset(s) + multiset{x}
    ensures |r| == |s| + 1
  {
    if s == [] then [x]
    else if LexLe(x, s[0]) then
      InsertFront(x, s);
      [x] + s
    else
      var rest := Insert(x, s[1..]);
      InsertBehind(x, s, rest);
      [s[0]] + rest
  }

  /** An element no greater than the head of a sorted list goes in front. */
  lemma InsertFront(x: string, s: seq<string>)
    requires Sorted(s) && s != [] && LexLe(x, s[0])
    ensures Sorted([x] + s)
  {
    forall j | 0 <= j < |s| ensures LexLe(x, s[j]) {
      if j > 0 { LexLeTransitive(x, s[0], s[j]); }
    }
  }

  /** An element greater than the head goes behind it, into the sorted tail. */
  lemma InsertBehind(x: string, s: seq<string>, rest: seq<string>)
    requires Sorted(s) && s != [] && !LexLe(x, s[0])
    requires Sorted(rest) && multiset(rest) == multiset(s[1..]) + multiset{x}
    ensures Sorted([s[0]] + rest)
    ensures multiset([s[0]] + rest) == multiset(s) + multiset{x}
  {
    LexLeTotal(x, s[0]);
    forall j | 0 <= j < |rest| ensures LexLe(s[0], rest[j]) {
      assert rest[j] in multiset(rest);
      if rest[j] != x {
        assert rest[j] in multiset(s[1..]);
        var k :| 0 <= k < |s[1..]| && s[1..][k] == rest[j];
        assert s[k + 1] == rest[j];
      }
    }
    assert s == [s[0]] + s[1..];
  }

  /** `sorted(s)`: the ascending permutation of `s`. */
  function Sort(s: seq<string>): (r: seq<string>)
    ensures Sorted(r)
    ensures multiset(r) == multiset(s)
    ensures |r| == |s|
  {
    if s == [] then []
    else
      assert s == [s[0]] + s[1..];
      Insert(s[0], Sort(s[1..]))
  }

  /** Two ascending lists with the same elements are equal: `Sort` is
      therefore the one result any sort of the same names can give. */
  lemma {:induction false} SortedUnique(r: seq<string>, q: seq<string>)
    requires Sorted(r) && Sorted(q) && multiset(r) == multiset(q)
    ensures r == q
    decreases |r|
  {
    assert |q| == |r| by { assert |multiset(q)| == |multiset(r)|; }
    if r != [] {
      SortedHeadLeast(q, r[0]);
      SortedHeadLeast(r, q[0]);
      LexLeAntisymmetric(r[0], q[0]);
      TailMultiset(r);
      TailMultiset(q);
      SortedUnique(r[1..], q[1..]);
    }
  }

  lemma SortedHeadLeast(s: seq<string>, x: string)
    requires Sorted(s) && x in multiset(s)
    ensures LexLe(s[0], x)
  {
    var i :| 0 <= i < |s| && s[i] == x;
    if i == 0 { LexLeTotal(x, x); }
  }

  lemma TailMultiset(s: seq<string>)
    requires s != []
    ensures multiset(s[1..]) == multiset(s) - multiset{s[0]}
  {
    assert s == [s[0]] + s[1..];
  }

  // ---------------------------------------------------------------------
  // `[f for f in s if p(f)]`

  function Filter(s: seq<string>, p: string -> bool): (r: seq<string>)
    ensures |r| <= |s|
  {
    if s == [] then []
    else (if p(s[0]) then [s[0]] else []) + Filter(s[1..], p)
  }

  /** The filter keeps exactly the elements that pass. */
  lemma {:induction false} FilterMembers(s: seq<string>, p: string -> bool)
    ensures forall f :: f in Filter(s, p) <==> f in s && p(f)
    decreases |s|
  {
    if s != [] {
      FilterMembers(s[1..], p);
      assert s == [s[0]] + s[1..];
    }
  }

  lemma {:induction false} FilterSnoc(s: seq<string>, x: string, p: string -> bool)
    ensures Filter(s + [x], p) == Filter(s, p) + (if p(x) then [x] else [])
    decreases |s|
  {
    if s == [] {
      assert [] + [x] == [x];
    } else {
      var head := if p(s[0]) then [s[0]] else [];
      assert (s + [x])[0] == s[0] && (s + [x])[1..] == s[1..] + [x];
      assert Filter(s + [x], p) == head + Filter(s[1..] + [x], p);
      FilterSnoc(s[1..], x, p);
      assert Filter(s, p) == head + Filter(s[1..], p);
    }
  }

  /** Each name is kept exactly as often as it occurs, if it passes. */
  lemma {:induction false} FilterCount(s: seq<string>, p: string -> bool, x: string)
    ensures multiset(Filter(s, p))[x] == if p(x) then multiset(s)[x] else 0
    decreases |s|
  {
    if s != [] {
      FilterCount(s[1..], p, x);
      assert s == [s[0]] + s[1..];
    }
  }

  /** Filtering permutations gives permutations. */
  lemma FilterPermutation(a: seq<string>, b: seq<string>, p: string -> bool)
    requires multiset(a) == multiset(b)
    ensures multiset(Filter(a, p)) == multiset(Filter(b, p))
  {
    forall x ensures multiset(Filter(a, p))[x] == multiset(Filter(b, p))[x] {
      FilterCount(a, p, x);
      FilterCount(b, p, x);
    }
  }

  lemma {:induction false} FilterMultiset(s: seq<string>, p: string -> bool)
    ensures multiset(Filter(s, p)) <= multiset(s)
    decreases |s|
  {
    if s != [] {
      FilterMultiset(s[1..], p);
      assert s == [s[0]] + s[1..];
    }
  }

  /** Filtering keeps a sorted list sorted: it only drops entries. */
  lemma {:induction false} FilterSorted(s: seq<string>, p: string -> bool)
    requires Sorted(s)
    ensures Sorted(Filter(s, p))
    decreases |s|
  {
    if s != [] {
      FilterSorted(s[1..], p);
      FilterMembers(s[1..], p);
      var rest := Filter(s[1..], p);
      forall j | 0 <= j < |rest| ensures LexLe(s[0], rest[j]) {
        assert rest[j] in s[1..];
      }
    }
  }

  // ---------------------------------------------------------------------
  // `s.replace(".png", rep)`: every occurrence, scanned left to right.

  /** `.png` occurs in `s` at index `i`. */
  predicate PngAt(s: string, i: int) {
    0 <= i && i + 4 <= |s| && s[i..i + 4] == ".png"
  }

  /** `".png" in s`: the name starts with `.png`, or its tail holds one. */
  predicate HasPng(s: string)
    decreases |s|
  {
    |s| >= 4 && (s[..4] == ".png" || HasPng(s[1..]))
  }

  /** An occurrence in a tail is an occurrence in the whole. */
  lemma PngAtTail(s: string, i: int)
    requires |s| >= 1 && PngAt(s[1..], i)
    ensures PngAt(s, i + 1)
  {
    assert s[i + 1..i + 1 + 4] == s[1..][i..i + 4];
  }

  /** `HasPng` holds exactly when `.png` occurs at some index. */
  lemma {:induction false} HasPngAt(s: string)
    ensures HasPng(s) <==> exists i :: PngAt(s, i)
    decreases |s|
  {
    if |s| >= 4 {
      HasPngAt(s[1..]);
      assert s[0..0 + 4] == s[..4];
      if s[..4] == ".png" {
        assert PngAt(s, 0);
      }
      if exists i :: PngAt(s[1..], i) {
        var i :| PngAt(s[1..], i);
        PngAtTail(s, i);
      }
      if exists i :: PngAt(s, i) {
        var i :| PngAt(s, i);
        if i >= 1 {
          assert s[1..][i - 1..i - 1 + 4] == s[i..i + 4];
          assert PngAt(s[1..], i - 1);
        }
      }
    }
  }

  /** A name without a lower-case `g` holds no `.png`. */
  lemma {:induction false} NoPngWithoutG(s: string)
    requires forall k :: 0 <= k < |s| ==> s[k] != 'g'
    ensures !HasPng(s)
    decreases |s|
  {
    if |s| >= 4 {
      assert s[..4][3] == s[3];
      NoPngWithoutG(s[1..]);
    }
  }

  /** `s.replace(".png", rep)`: every occurrence, scanning left to right.
      A name without `.png` comes back unchanged; with a replacement at
      least as long as `.png` the name never shortens, and a name holding
      `.png` grows by at least `|rep| - 4`. */
  function ReplacePng(s: string, rep: string): (r: string)
    ensures !HasPng(s) ==> r == s
    ensures |rep| >= 4 ==> |r| >= |s|
    ensures |rep| >= 4 && HasPng(s) ==> |r| >= |s| + |rep| - 4
    decreases |s|
  {
    if |s| < 4 then s
    else if s[..4] == ".png" then rep + ReplacePng(s[4..], rep)
    else
      assert s == [s[0]] + s[1..];
      [s[0]] + ReplacePng(s[1..], rep)
  }

  /** The leftmost `.png` is replaced, and the scan goes on after it:
      `p + ".png" + q` becomes `p + rep` followed by the replaced `q`, when
      no occurrence starts inside `p`. */
  lemma {:induction false} ReplacePngLeftmost(p: string, q: string, rep: string)
    requires forall i :: 0 <= i < |p| ==> !PngAt(p + ".png" + q, i)
    ensures ReplacePng(p + ".png" + q, rep) == p + rep + ReplacePng(q, rep)
    decreases |p|
  {
    if p == [] {
      ReplacePngAtStart(q, rep);
      assert p + ".png" + q == ".png" + q && p + rep == rep;
    } else {
      LeftmostShift(p, q);
      ReplacePngLeftmost(p[1..], q, rep);
      ReplacePngStep(p, q, rep);
      ConsConcat(p, rep, ReplacePng(q, rep));
    }
  }

  /** A leading `.png` is replaced and the scan goes on after it. */
  lemma ReplacePngAtStart(q: string, rep: string)
    ensures ReplacePng(".png" + q, rep) == rep + ReplacePng(q, rep)
  {
    var s := ".png" + q;
    assert s[..4] == ".png" && s[4..] == q;
  }

  lemma ConsConcat(p: string, a: string, b: string)
    requires p != []
    ensures [p[0]] + (p[1..] + a + b) == p + a + b
  {
    assert p == [p[0]] + p[1..];
  }

  /** Where no `.png` starts, the first character is kept and the scan moves on. */
  lemma ReplacePngStep(p: string, q: string, rep: string)
    requires p != [] && !PngAt(p + ".png" + q, 0)
    ensures ReplacePng(p + ".png" + q, rep) == [p[0]] + ReplacePng(p[1..] + ".png" + q, rep)
  {
    var s := p + ".png" + q;
    assert s[0..0 + 4] == s[..4];
    assert s[0] == p[0] && s[1..] == p[1..] + ".png" + q;
  }

  /** No occurrence starting inside `p` means none starting inside its tail. */
  lemma LeftmostShift(p: string, q: string)
    requires p != [] && forall i :: 0 <= i < |p| ==> !PngAt(p + ".png" + q, i)
    ensures !PngAt(p + ".png" + q, 0)
    ensures forall i :: 0 <= i < |p[1..]| ==> !PngAt(p[1..] + ".png" + q, i)
  {
    var s := p + ".png" + q;
    assert s[1..] == p[1..] + ".png" + q;
    forall i | 0 <= i < |p[1..]| ensures !PngAt(p[1..] + ".png" + q, i) {
      if PngAt(s[1..], i) {
        PngAtTail(s, i);
      }
    }
  }

  /** `stem + ".png"` becomes `stem + rep` when the stem holds no `.png`. */
  lemma {:induction false} ReplacePngExtension(stem: string, rep: string)
    requires !HasPng(stem)
    ensures ReplacePng(stem + ".png", rep) == stem + rep
    decreases |stem|
  {
    var s := stem + ".png";
    if stem == [] {
      assert s == ".png" && s[4..] == [];
    } else {
      NoPngAtStart(stem);
      assert !HasPng(stem[1..]);
      ReplacePngExtension(stem[1..], rep);
      assert s[1..] == stem[1..] + ".png";
      assert ReplacePng(s, rep) == [s[0]] + ReplacePng(s[1..], rep);
      assert stem == [stem[0]] + stem[1..];
    }
  }

  /** `.png` never starts inside a stem free of `.png` and runs into the appended extension. */
  lemma NoPngAtStart(stem: string)
    requires stem != [] && !HasPng(stem)
    ensures (stem + ".png")[..4] != ".png"
  {
    var s := stem + ".png";
    if |stem| >= 4 {
      assert s[..4] == stem[..4];
    } else {
      assert s[|stem|] == '.';
      assert s[..4][|stem|] == '.';
    }
  }
}
