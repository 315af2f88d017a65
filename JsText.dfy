/** The parts of JavaScript's string and regular-expression semantics that the
    comment panel relies on: the `\s` class, the characters `.` refuses, literal
    search, greedy runs of one character class, and `String.prototype.trim`.
    Strings are sequences of Unicode scalar values. */
module JsText {
  import opened Wrappers

  /** ECMAScript LineTerminator: the characters the regex `.` does not match. */
  predicate IsLineTerminator(c: char)
  {
    c == '\n' || c == '\r' || c == '\U{2028}' || c == '\U{2029}'
  }

  /** ECMAScript WhiteSpace or LineTerminator: what `\s` matches and what
      `trim` removes (the space separators are those of Unicode 6.3 and later). */
  predicate IsSpace(c: char)
  {
    || IsLineTerminator(c)
    || c == '\t' || c == '\U{B}' || c == '\U{C}' || c == ' '
    || c == '\U{A0}' || c == '\U{1680}' || ('\U{2000}' <= c <= '\U{200A}')
    || c == '\U{202F}' || c == '\U{205F}' || c == '\U{3000}' || c == '\U{FEFF}'
  }


  /** The regex character classes the panel uses: `\s`, `.` and `[^x]`. */
  datatype CharClass = Space | Dot | AnyBut(excluded: char)

  predicate InClass(k: CharClass, c: char)
  {
    match k
    case Space => IsSpace(c)
    case Dot => !IsLineTerminator(c)
    case AnyBut(x) => c != x
  }

  predicate AllSpace(s: string)
  {
    forall c :: c in s ==> IsSpace(c)
  }


  predicate NoLineTerminator(s: string)
  {
    forall c :: c in s ==> !IsLineTerminator(c)
  }

  /** What `trim` leaves: nothing, or text that neither starts nor ends with white space. */
  predicate IsTrimmed(s: string)
  {
    s == [] || (!IsSpace(s[0]) && !IsSpace(s[|s| - 1]))
  }

  /** The literal `t` occurs in `s` starting at index `i`. */
  predicate OccursAt(s: string, i: nat, t: string)
  {
    i + |t| <= |s| && forall k :: 0 <= k < |t| ==> s[i + k] == t[k]
  }

  /** An occurrence of `t1 + t2` is an occurrence of `t1` followed, at `m`,
      by one of `t2`. */
  lemma OccursConcat(s: string, i: nat, m: nat, t1: string, t2: string)
    requires m == i + |t1|
    ensures OccursAt(s, i, t1 + t2) <==> OccursAt(s, i, t1) && OccursAt(s, m, t2)
  {
    if OccursAt(s, i, t1) && OccursAt(s, m, t2) {
      forall k | 0 <= k < |t1 + t2|
        ensures s[i + k] == (t1 + t2)[k]
      {
        if k >= |t1| {
          assert s[m + (k - |t1|)] == t2[k - |t1|];
        }
      }
    }
    if OccursAt(s, i, t1 + t2) {
      forall k | 0 <= k < |t1|
        ensures s[i + k] == t1[k]
      {
        assert s[i + k] == (t1 + t2)[k];
      }
      forall k | 0 <= k < |t2|
        ensures s[m + k] == t2[k]
      {
        assert s[i + (|t1| + k)] == (t1 + t2)[|t1| + k];
      }
    }
  }

  /** An occurrence is the slice it covers. */
  lemma OccursSlice(s: string, i: nat, t: string)
    requires OccursAt(s, i, t)
    ensures s[i..i + |t|] == t
  {
    var u := s[i..i + |t|];
    assert forall k :: 0 <= k < |t| ==> u[k] == t[k];
  }

  /** A slice occurs where it was taken. */
  lemma SliceOccurs(s: string, i: nat, j: nat)
    requires i <= j <= |s|
    ensures OccursAt(s, i, s[i..j])
  {
  }

  /** Every character of `s` from `a` up to `b` is of class `k`. */
  predicate RunOf(s: string, a: nat, b: nat, k: CharClass)
    requires a <= b <= |s|
  {
    forall m :: a <= m < b ==> InClass(k, s[m])
  }

  /** A run lists only characters of its class. */
  lemma RunMembers(s: string, a: nat, b: nat, k: CharClass)
    requires a <= b <= |s| && RunOf(s, a, b, k)
    ensures forall c :: c in s[a..b] ==> InClass(k, c)
  {
    forall c | c in s[a..b]
      ensures InClass(k, c)
    {
      var j :| 0 <= j < b - a && s[a..b][j] == c;
      assert s[a + j] == c;
    }
  }

  /** An occurrence of a literal made of class `k` is a run of `k`. */
  lemma OccursRun(s: string, a: nat, g: string, k: CharClass)
    requires OccursAt(s, a, g) && forall c :: c in g ==> InClass(k, c)
    ensures RunOf(s, a, a + |g|, k)
  {
    forall m | a <= m < a + |g|
      ensures InClass(k, s[m])
    {
      assert s[a + (m - a)] == g[m - a];
      assert g[m - a] in g;
    }
  }

  /** End of the greedy run of characters of class `k` that starts at `i`
      (a quantifier `*` over the class `k`). */
  function SkipWhile(s: string, i: nat, k: CharClass): (j: nat)
    requires i <= |s|
    ensures i <= j <= |s|
    decreases |s| - i
  {
    if i == |s| || !InClass(k, s[i]) then i else SkipWhile(s, i + 1, k)
  }

  /** The run `SkipWhile` takes is all of class `k`, and stops before a
      character outside `k` or at the end. */
  lemma {:induction false} SkipWhileRun(s: string, i: nat, k: CharClass)
    requires i <= |s|
    ensures RunOf(s, i, SkipWhile(s, i, k), k)
    ensures SkipWhile(s, i, k) == |s| || !InClass(k, s[SkipWhile(s, i, k)])
    decreases |s| - i
  {
    if i < |s| && InClass(k, s[i]) {
      SkipWhileRun(s, i + 1, k);
    }
  }

  /** A run of class `k` from `i` that stops before a character outside `k`
      (or at the end) is the one `SkipWhile` finds: the greedy run is unique. */
  lemma {:induction false} SkipWhileUnique(s: string, i: nat, j: nat, k: CharClass)
    requires i <= j <= |s| && RunOf(s, i, j, k)
    requires j == |s| || !InClass(k, s[j])
    ensures SkipWhile(s, i, k) == j
    decreases j - i
  {
    if i < j {
      assert InClass(k, s[i]);
      SkipWhileUnique(s, i + 1, j, k);
    }
  }

  /** `indexOf` of the literal `t` from index `from`, reported as the index
      just past the first occurrence (where the text after it begins). */
  function SearchEnd(s: string, t: string, from: nat): (r: Option<nat>)
    ensures r.Some? ==> from + |t| <= r.value <= |s|
    decreases |s| - from
  {
    if from + |t| > |s| then None
    else if OccursAt(s, from, t) then Some(from + |t|)
    else SearchEnd(s, t, from + 1)
  }

  /** `SearchEnd` stops after the leftmost occurrence at or after `from`, and
      finds none only when there is none. */
  lemma {:induction false} SearchEndLeast(s: string, t: string, from: nat)
    ensures SearchEnd(s, t, from).Some? ==> OccursAt(s, SearchEnd(s, t, from).value - |t|, t)
    ensures SearchEnd(s, t, from).Some? ==>
      forall j :: from <= j < SearchEnd(s, t, from).value - |t| ==> !OccursAt(s, j, t)
    ensures SearchEnd(s, t, from).None? ==> forall j :: from <= j ==> !OccursAt(s, j, t)
    decreases |s| - from
  {
    if from + |t| <= |s| && !OccursAt(s, from, t) {
      SearchEndLeast(s, t, from + 1);
    }
  }

  /** `t` cannot start before `k` when its character `t[m]` does not occur in
      the text that such a start would put it against. */
  lemma NoEarlierOccurrence(s: string, t: string, k: nat, m: nat)
    requires m < |t| && k + m <= |s|
    requires t[m] !in s[..k + m]
    ensures forall j :: 0 <= j < k ==> !OccursAt(s, j, t)
  {
    forall j | 0 <= j < k
      ensures !OccursAt(s, j, t)
    {
      assert s[..k + m][j + m] == s[j + m];
    }
  }

  /** `t` occurs nowhere when one of its characters occurs nowhere. */
  lemma CharAbsentNoOccurrence(s: string, t: string, m: nat)
    requires m < |t| && t[m] !in s
    ensures forall j :: !OccursAt(s, j, t)
  {
    forall j: nat
      ensures !OccursAt(s, j, t)
    {
      if j + m < |s| {
        assert s[j + m] in s;
      }
    }
  }

  /** The first occurrence of `t` is the one `SearchEnd` stops after. */
  lemma SearchEndFirst(s: string, t: string, k: nat)
    requires OccursAt(s, k, t)
    requires forall j :: 0 <= j < k ==> !OccursAt(s, j, t)
    ensures SearchEnd(s, t, 0) == Some(k + |t|)
  {
    SearchEndLeast(s, t, 0);
  }

  /** Drop leading white space. */
  function TrimStart(s: string): (r: string)
    ensures |r| <= |s| && r == s[|s| - |r|..]
    ensures AllSpace(s[..|s| - |r|])
    ensures r == [] || !IsSpace(r[0])
  {
    if s != [] && IsSpace(s[0]) then
      var r := TrimStart(s[1..]);
      assert s[..|s| - |r|] == [s[0]] + s[1..][..|s| - 1 - |r|];
      r
    else s
  }

  /** Drop trailing white space. */
  function TrimEnd(s: string): (r: string)
    ensures |r| <= |s| && r == s[..|r|]
    ensures AllSpace(s[|r|..])
    ensures r == [] || !IsSpace(r[|r| - 1])
  {
    if s != [] && IsSpace(s[|s| - 1]) then
      var r := TrimEnd(s[..|s| - 1]);
      assert s[|r|..] == s[..|s| - 1][|r|..] + [s[|s| - 1]];
      r
    else s
  }

  /** `String.prototype.trim`: remove white space at both ends. */
  function Trim(s: string): (r: string)
    ensures IsTrimmed(r)
    ensures forall c :: c in r ==> c in s
  {
    var t := TrimStart(s);
    var r := TrimEnd(t);
    TrimMembers(s, t, r);
    r
  }

  /** A prefix of a suffix of `s` only holds characters of `s`. */
  lemma TrimMembers(s: string, t: string, r: string)
    requires |t| <= |s| && t == s[|s| - |t|..]
    requires |r| <= |t| && r == t[..|r|]
    ensures forall c :: c in r ==> c in s
  {
    forall c | c in r
      ensures c in s
    {
      var j :| 0 <= j < |r| && r[j] == c;
      assert t[j] == c;
      assert s[|s| - |t| + j] == c;
    }
  }

  lemma TrimStartSplit(s: string)
    ensures exists pre :: AllSpace(pre) && s == pre + TrimStart(s)
  {
    var t := TrimStart(s);
    var pre := s[..|s| - |t|];
    assert s == pre + t;
  }

  lemma TrimEndSplit(s: string)
    ensures exists post :: AllSpace(post) && s == TrimEnd(s) + post
  {
    var r := TrimEnd(s);
    var post := s[|r|..];
    assert s == r + post;
  }

  /** What `trim` removes is white space on either side of its result. */
  lemma TrimSplit(s: string)
    ensures exists pre, post :: AllSpace(pre) && AllSpace(post) && s == pre + Trim(s) + post
  {
    TrimStartSplit(s);
    var pre :| AllSpace(pre) && s == pre + TrimStart(s);
    TrimEndSplit(TrimStart(s));
    var post :| AllSpace(post) && TrimStart(s) == Trim(s) + post;
    ConcatAssoc(pre, Trim(s), post);
  }

  lemma ConcatAssoc(a: string, b: string, c: string)
    ensures a + (b + c) == a + b + c
  {
  }

  lemma {:induction false} TrimStartPadded(pre: string, rest: string)
    requires AllSpace(pre)
    requires rest == [] || !IsSpace(rest[0])
    ensures TrimStart(pre + rest) == rest
    decreases |pre|
  {
    if pre != [] {
      assert (pre + rest)[1..] == pre[1..] + rest;
      TrimStartPadded(pre[1..], rest);
    }
  }

  lemma {:induction false} TrimEndPadded(rest: string, post: string)
    requires AllSpace(post)
    requires rest == [] || !IsSpace(rest[|rest| - 1])
    ensures TrimEnd(rest + post) == rest
    decreases |post|
  {
    if post != [] {
      var n := |post| - 1;
      assert (rest + post)[..|rest + post| - 1] == rest + post[..n];
      TrimEndPadded(rest, post[..n]);
    }
  }

  /** Trimming removes exactly the white space around trimmed text. */
  lemma TrimPadded(pre: string, mid: string, post: string)
    requires AllSpace(pre) && AllSpace(post) && IsTrimmed(mid)
    ensures Trim(pre + mid + post) == mid
  {
    if mid == [] {
      assert pre + mid + post == pre + post;
      assert AllSpace(pre + post);
      TrimStartPadded(pre + post, []);
      assert pre + post + [] == pre + post;
    } else {
      assert pre + mid + post == pre + (mid + post);
      TrimStartPadded(pre, mid + post);
      TrimEndPadded(mid, post);
    }
  }

  /** Trimming twice is trimming once. */
  lemma TrimIdempotent(s: string)
    ensures Trim(Trim(s)) == Trim(s)
  {
    var r := Trim(s);
    assert [] + r + [] == r;
    TrimPadded([], r, []);
  }

  /** Trimming text that is already trimmed changes nothing. */
  lemma TrimTrimmed(s: string)
    requires IsTrimmed(s)
    ensures Trim(s) == s
  {
    assert [] + s + [] == s;
    TrimPadded([], s, []);
  }
}
