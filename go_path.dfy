/**
 * Go's lexical path functions on Unix (`filepath.Clean`, `Join` and `Base`
 * with '/' as the separator), as the uplink command line uses them.  A path is
 * split into its elements at every '/'; Clean then drops empty and "."
 * elements, lets ".." remove the element before it, and drops ".." at the
 * root of a rooted path.
 */
module GoPath {

  /** An element Clean keeps as it is: non-empty, neither "." nor "..", without a separator. */
  predicate Normal(c: string) {
    c != "" && c != "." && c != ".." && '/' !in c
  }

  predicate AllNormal(cs: seq<string>) {
    forall i :: 0 <= i < |cs| ==> Normal(cs[i])
  }

  predicate NoSlash(cs: seq<string>) {
    forall i :: 0 <= i < |cs| ==> '/' !in cs[i]
  }

  predicate EndsWithSlash(s: string) {
    |s| > 0 && s[|s| - 1] == '/'
  }

  /** The position of the first separator. */
  function SlashIndex(s: string): (i: nat)
    requires '/' in s
    ensures i < |s| && s[i] == '/' && '/' !in s[..i]
  {
    if s[0] == '/' then 0
    else
      var j := SlashIndex(s[1..]);
      assert s[..j + 1] == [s[0]] + s[1..][..j];
      j + 1
  }

  /** The first separator of s is at i: s splits there. */
  lemma {:induction false} SlashIndexUnique(s: string, i: nat)
    requires i < |s| && s[i] == '/' && '/' !in s[..i]
    ensures SlashIndex(s) == i
    ensures Split(s) == [s[..i]] + Split(s[i + 1..])
  {
    assert '/' in s;
  }

  /** The elements of a path: the pieces between its separators, empty ones included. */
  function Split(s: string): (cs: seq<string>)
    ensures |cs| > 0 && NoSlash(cs)
    decreases |s|
  {
    if '/' in s then
      var i := SlashIndex(s);
      [s[..i]] + Split(s[i + 1..])
    else [s]
  }

  /** The elements joined with separators between them. */
  function JoinElems(cs: seq<string>): string {
    if |cs| == 0 then ""
    else if |cs| == 1 then cs[0]
    else cs[0] + "/" + JoinElems(cs[1..])
  }

  /** Splitting at a separator splits the two sides apart. */
  lemma {:induction false} SplitConcat(a: string, b: string)
    ensures Split(a + "/" + b) == Split(a) + Split(b)
    decreases |a|
  {
    var s := a + "/" + b;
    if '/' in a {
      var i := SlashIndex(a);
      var rest := a[i + 1..];
      assert s[..i] == a[..i] && s[i] == '/';
      SlashIndexUnique(s, i);
      assert s[i + 1..] == rest + "/" + b;
      SplitConcat(rest, b);
      assert Split(a) == [a[..i]] + Split(rest);
      ConcatAssoc([a[..i]], Split(rest), Split(b));
    } else {
      SplitAfterElem(a, b);
      assert Split(a) == [a];
    }
  }

  lemma ConcatAssoc<T>(x: seq<T>, y: seq<T>, z: seq<T>)
    ensures x + (y + z) == (x + y) + z
  {
  }

  /** Joining elements that hold no separator and splitting again gives them back. */
  lemma {:induction false} SplitJoin(cs: seq<string>)
    requires |cs| > 0 && NoSlash(cs)
    ensures Split(JoinElems(cs)) == cs
    decreases |cs|
  {
    if |cs| > 1 {
      SplitJoin(cs[1..]);
      assert '/' !in cs[0];
      SplitAfterElem(cs[0], JoinElems(cs[1..]));
      assert cs == [cs[0]] + cs[1..];
    }
  }

  /** An element without a separator, then a separator, splits off as the first element. */
  lemma SplitAfterElem(c: string, rest: string)
    requires '/' !in c
    ensures Split(c + "/" + rest) == [c] + Split(rest)
  {
    var s := c + "/" + rest;
    assert s[..|c|] == c && s[|c|] == '/';
    SlashIndexUnique(s, |c|);
    assert s[|c| + 1..] == rest;
  }

  /** Splitting a path and joining its elements gives the path back. */
  lemma {:induction false} JoinSplit(s: string)
    ensures JoinElems(Split(s)) == s
    decreases |s|
  {
    if '/' in s {
      var i := SlashIndex(s);
      JoinSplit(s[i + 1..]);
      var cs := Split(s);
      assert cs[1..] == Split(s[i + 1..]);
      assert s == s[..i] + "/" + s[i + 1..];
    }
  }

  lemma {:induction false} JoinSnoc(cs: seq<string>, c: string)
    requires |cs| > 0
    ensures JoinElems(cs + [c]) == JoinElems(cs) + "/" + c
    decreases |cs|
  {
    if |cs| > 1 {
      assert (cs + [c])[1..] == cs[1..] + [c];
      JoinSnoc(cs[1..], c);
    }
  }

  /** A join of elements ends with its last element. */
  lemma {:induction false} JoinEnds(cs: seq<string>)
    requires |cs| > 0
    ensures |JoinElems(cs)| >= |cs[|cs| - 1]|
    ensures JoinElems(cs)[|JoinElems(cs)| - |cs[|cs| - 1]|..] == cs[|cs| - 1]
    decreases |cs|
  {
    if |cs| > 1 {
      JoinEnds(cs[1..]);
    }
  }

  /** One element of Clean's scan over a path, applied to the elements kept so far. */
  function Step(stack: seq<string>, c: string, rooted: bool): seq<string> {
    if c == "" || c == "." then stack
    else if c == ".." then
      if |stack| > 0 && stack[|stack| - 1] != ".." then stack[..|stack| - 1]
      else if rooted then stack
      else stack + [".."]
    else stack + [c]
  }

  /** The elements kept after scanning cs. */
  function Resolve(stack: seq<string>, cs: seq<string>, rooted: bool): seq<string>
    decreases |cs|
  {
    if |cs| == 0 then stack
    else Resolve(Step(stack, cs[0], rooted), cs[1..], rooted)
  }

  /** The shortest path lexically equal to s. */
  function Clean(s: string): string {
    if s == "" then "."
    else if s[0] == '/' then "/" + JoinElems(Resolve([], Split(s), true))
    else
      var out := JoinElems(Resolve([], Split(s), false));
      if out == "" then "." else out
  }

  /** The non-empty arguments joined with a separator, then cleaned. */
  function Join(a: string, b: string): string {
    if a != "" then Clean(a + "/" + b)
    else if b != "" then Clean(b)
    else ""
  }

  /** s without its trailing separators. */
  function TrimSlashes(s: string): (t: string)
    ensures !EndsWithSlash(t) && t <= s
    ensures forall i :: |t| <= i < |s| ==> s[i] == '/'
    decreases |s|
  {
    if EndsWithSlash(s) then TrimSlashes(s[..|s| - 1]) else s
  }

  /** The last element of a path, trailing separators ignored. */
  function Base(s: string): string {
    if s == "" then "."
    else
      var t := TrimSlashes(s);
      if t == "" then "/"
      else
        var cs := Split(t);
        cs[|cs| - 1]
  }

  /**
   * An end of what follows a separator is an end of the whole string, and the
   * separator comes before it when it is all of what follows.
   */
  lemma EndAfterSlash(s: string, i: nat, last: string, whole: bool)
    requires i < |s| && s[i] == '/'
    requires var rest := s[i + 1..];
      |last| <= |rest| && rest[|rest| - |last|..] == last &&
      (whole ==> last == rest) &&
      (!whole ==> |last| < |rest| && rest[|rest| - |last| - 1] == '/')
    ensures |last| < |s| && s[|s| - |last|..] == last && s[|s| - |last| - 1] == '/'
  {
    var rest := s[i + 1..];
    if !whole {
      assert s[|s| - |last| - 1] == rest[|rest| - |last| - 1];
    }
  }

  /** The last element of a path is its end, after a separator when there are several. */
  lemma {:induction false} SplitLast(s: string)
    ensures var cs := Split(s); var last := cs[|cs| - 1];
      |last| <= |s| && s[|s| - |last|..] == last &&
      (|cs| > 1 ==> |last| < |s| && s[|s| - |last| - 1] == '/')
    decreases |s|
  {
    if '/' in s {
      var i := SlashIndex(s);
      var rest := s[i + 1..];
      SplitLast(rest);
      var cs := Split(rest);
      var last := cs[|cs| - 1];
      assert |cs| == 1 ==> last == rest;
      EndAfterSlash(s, i, last, |cs| == 1);
      assert Split(s) == [s[..i]] + cs;
      assert Split(s)[|Split(s)| - 1] == last && |Split(s)| > 1;
    } else {
      assert Split(s) == [s];
      assert s[0..] == s;
    }
  }

  /** Base gives a single element, or the root for a path of separators. */
  lemma BaseShape(s: string)
    ensures Base(s) != "" && (Base(s) == "/" || '/' !in Base(s))
  {
    if s != "" && TrimSlashes(s) != "" {
      SplitLast(TrimSlashes(s));
    }
  }

  /** Scanning a concatenation is scanning one part after the other. */
  lemma {:induction false} ResolveAppend(stack: seq<string>, xs: seq<string>, ys: seq<string>, rooted: bool)
    ensures Resolve(stack, xs + ys, rooted) == Resolve(Resolve(stack, xs, rooted), ys, rooted)
    decreases |xs|
  {
    if |xs| > 0 {
      assert (xs + ys)[0] == xs[0] && (xs + ys)[1..] == xs[1..] + ys;
      ResolveAppend(Step(stack, xs[0], rooted), xs[1..], ys, rooted);
    } else {
      assert xs + ys == ys;
    }
  }

  /** An empty element is skipped. */
  lemma ResolveSkip(stack: seq<string>, cs: seq<string>, rooted: bool)
    ensures Resolve(stack, [""] + cs, rooted) == Resolve(stack, cs, rooted)
  {
    assert ([""] + cs)[1..] == cs;
  }

  /** Normal elements are all kept. */
  lemma {:induction false} ResolveNormal(stack: seq<string>, cs: seq<string>, rooted: bool)
    requires AllNormal(cs)
    ensures Resolve(stack, cs, rooted) == stack + cs
    decreases |cs|
  {
    if |cs| > 0 {
      ResolveNormal(stack + [cs[0]], cs[1..], rooted);
      assert stack + [cs[0]] + cs[1..] == stack + cs;
    }
  }

  /** Under a root, only normal elements are kept. */
  lemma {:induction false} ResolveRooted(stack: seq<string>, cs: seq<string>)
    requires AllNormal(stack) && NoSlash(cs)
    ensures AllNormal(Resolve(stack, cs, true))
    decreases |cs|
  {
    if |cs| > 0 {
      ResolveRooted(Step(stack, cs[0], true), cs[1..]);
    }
  }

  /** Kept elements never hold a separator. */
  lemma {:induction false} ResolveNoSlash(stack: seq<string>, cs: seq<string>, rooted: bool)
    requires NoSlash(stack) && NoSlash(cs)
    ensures NoSlash(Resolve(stack, cs, rooted))
    decreases |cs|
  {
    if |cs| > 0 {
      ResolveNoSlash(Step(stack, cs[0], rooted), cs[1..], rooted);
    }
  }

  /** A path in Clean's rooted form: the root alone, or the root and normal elements. */
  predicate CleanAbs(p: string) {
    p == "/" || (|p| > 1 && p[0] == '/' && AllNormal(Split(p[1..])))
  }

  /** The elements of a rooted clean path. */
  function Elems(p: string): seq<string>
    requires CleanAbs(p)
  {
    if p == "/" then [] else Split(p[1..])
  }

  /** A rooted clean path is the root followed by its normal elements. */
  lemma CleanAbsElems(p: string)
    requires CleanAbs(p)
    ensures AllNormal(Elems(p)) && p == "/" + JoinElems(Elems(p))
  {
    if p != "/" {
      JoinSplit(p[1..]);
    }
  }

  /** The root followed by normal elements is a rooted clean path, which Clean keeps. */
  lemma {:induction false} RootedClean(cs: seq<string>)
    requires AllNormal(cs)
    ensures CleanAbs("/" + JoinElems(cs)) && Elems("/" + JoinElems(cs)) == cs
    ensures Clean("/" + JoinElems(cs)) == "/" + JoinElems(cs)
  {
    var p := "/" + JoinElems(cs);
    assert p[0] == '/' && p[1..] == JoinElems(cs);
    SplitConcat("", JoinElems(cs));
    assert "" + "/" + JoinElems(cs) == p;
    assert Split("") == [""];
    assert Clean(p) == "/" + JoinElems(Resolve([], Split(p), true));
    var kept := cs;
    if |cs| > 0 {
      SplitJoin(cs);
      JoinEnds(cs);
      assert Split(p) == [""] + cs;
      ResolveSkip([], cs, true);
      ResolveNormal([], cs, true);
    } else {
      assert Split(p) == [""] + [""];
      ResolveSkip([], [""], true);
      assert [""] == [""] + [];
      ResolveSkip([], [], true);
    }
    assert Resolve([], Split(p), true) == kept;
  }

  /** Clean of a rooted path is a rooted clean path. */
  lemma RootedCleanForm(s: string)
    requires |s| > 0 && s[0] == '/'
    ensures CleanAbs(Clean(s))
  {
    var cs := Resolve([], Split(s), true);
    ResolveRooted([], Split(s));
    RootedClean(cs);
  }

  /** A rooted clean path has no trailing separator unless it is the root. */
  lemma CleanAbsNoTrailing(p: string)
    requires CleanAbs(p) && p != "/"
    ensures !EndsWithSlash(p)
  {
    var cs := Elems(p);
    CleanAbsElems(p);
    JoinEnds(cs);
    var last := cs[|cs| - 1];
    assert p[|p| - |last|..] == last;
    assert p[|p| - 1] == last[|last| - 1];
  }

  /** Clean leaves a cleaned path as it is. */
  lemma CleanIdempotent(s: string)
    requires |s| > 0 && s[0] == '/'
    ensures Clean(Clean(s)) == Clean(s)
  {
    RootedCleanForm(s);
    CleanAbsElems(Clean(s));
    RootedClean(Elems(Clean(s)));
  }

  /** A normal element joined under a rooted clean path is appended as the new last element. */
  lemma JoinUnder(p: string, b: string)
    requires CleanAbs(p) && Normal(b)
    ensures Clean(p + "/" + b) == (if p == "/" then p + b else p + "/" + b)
    ensures CleanAbs(Clean(p + "/" + b))
  {
    if p == "/" {
      JoinUnderRoot(b);
    } else {
      JoinUnderElems(p, b);
    }
  }

  lemma SplitDoubleRoot(b: string)
    requires Normal(b)
    ensures Split("/" + "/" + b) == [""] + ([""] + [b])
  {
    var s := "/" + "/" + b;
    assert s == "" + "/" + ("" + "/" + b);
    SplitConcat("", "" + "/" + b);
    SplitConcat("", b);
    assert Split("") == [""];
    assert Split(b) == [b];
  }

  lemma JoinUnderRoot(b: string)
    requires Normal(b)
    ensures Clean("/" + "/" + b) == "/" + b && CleanAbs("/" + b)
  {
    var s := "/" + "/" + b;
    assert s[0] == '/';
    assert Clean(s) == "/" + JoinElems(Resolve([], Split(s), true));
    SplitDoubleRoot(b);
    ResolveSkip([], [""] + [b], true);
    ResolveSkip([], [b], true);
    ResolveNormal([], [b], true);
    assert JoinElems([b]) == b;
    RootedClean([b]);
  }

  lemma JoinUnderElems(p: string, b: string)
    requires CleanAbs(p) && p != "/" && Normal(b)
    ensures Clean(p + "/" + b) == p + "/" + b && CleanAbs(p + "/" + b)
  {
    var cs := Elems(p);
    CleanAbsElems(p);
    assert |cs| > 0;
    var ds := cs + [b];
    assert AllNormal(ds);
    JoinSnoc(cs, b);
    var j := JoinElems(cs);
    assert "/" + JoinElems(ds) == "/" + (j + "/" + b);
    assert "/" + (j + "/" + b) == ("/" + j) + "/" + b;
    RootedClean(ds);
  }

  /** The last element of a cleaned path joined with a normal element is that element. */
  lemma JoinedBase(x: string, b: string)
    requires Normal(b)
    ensures Base(Clean(x + "/" + b)) == b
  {
    var s := x + "/" + b;
    var rooted := |s| > 0 && s[0] == '/';
    SplitConcat(x, b);
    assert Split(b) == [b];
    ResolveAppend([], Split(x), [b], rooted);
    var st := Resolve([], Split(x), rooted);
    assert Resolve([], Split(s), rooted) == st + [b];
    ResolveNoSlash([], Split(x), rooted);
    var cs := st + [b];
    assert NoSlash(cs);
    JoinEnds(cs);
    assert Clean(s) == (if rooted then "/" else "") + JoinElems(cs);
    BaseOfElems(cs, rooted);
  }

  /** A path made of elements without separators, the last one normal, ends in that element. */
  lemma BaseOfElems(cs: seq<string>, rooted: bool)
    requires |cs| > 0 && NoSlash(cs) && Normal(cs[|cs| - 1])
    ensures Base((if rooted then "/" else "") + JoinElems(cs)) == cs[|cs| - 1]
  {
    var b := cs[|cs| - 1];
    SplitJoin(cs);
    JoinEnds(cs);
    var j := JoinElems(cs);
    assert j[|j| - |b|..] == b;
    assert j[|j| - 1] == b[|b| - 1];
    var c := (if rooted then "/" else "") + j;
    if rooted {
      assert c[1..] == j;
      SplitConcat("", j);
      assert "" + "/" + j == c;
      assert Split(c) == [""] + cs;
    } else {
      assert c == j;
    }
    assert !EndsWithSlash(c);
    assert TrimSlashes(c) == c;
  }

  /** An extra separator at the front of a rooted path changes nothing. */
  lemma LeadingRoot(x: string)
    requires |x| > 0 && x[0] == '/'
    ensures Clean("/" + x) == Clean(x)
  {
    var s := "/" + x;
    assert s[0] == '/';
    assert "" + "/" + x == s;
    SplitConcat("", x);
    assert Split("") == [""];
    ResolveSkip([], Split(x), true);
  }

  /** A trailing separator on a rooted path changes nothing. */
  lemma TrailingSlash(x: string)
    requires |x| > 0 && x[0] == '/'
    ensures Clean(x + "/") == Clean(x)
  {
    var s := x + "/";
    assert s[0] == '/';
    assert x + "/" + "" == s;
    SplitConcat(x, "");
    assert Split("") == [""];
    ResolveAppend([], Split(x), [""], true);
    assert [""] == [""] + [];
    ResolveSkip(Resolve([], Split(x), true), [], true);
  }

  /** An empty element inside a rooted path changes nothing. */
  lemma EmptyElem(x: string, y: string)
    requires |x| > 0 && x[0] == '/'
    ensures Clean(x + "/" + "/" + y) == Clean(x + "/" + y)
  {
    var s := x + "/" + "/" + y;
    var t := x + "/" + y;
    assert s[0] == '/' && t[0] == '/';
    assert s == x + "/" + ("" + "/" + y);
    SplitConcat(x, "" + "/" + y);
    SplitConcat("", y);
    SplitConcat(x, y);
    assert Split("") == [""];
    ResolveAppend([], Split(x), [""] + Split(y), true);
    ResolveAppend([], Split(x), Split(y), true);
    ResolveSkip(Resolve([], Split(x), true), Split(y), true);
  }
}
