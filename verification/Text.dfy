/** The string and slice operations of Go's `strings` package that the hand-written
    parsers and printers use, over any element type, with the laws the round trips need. */
module Text {

  /** First position of `c` in `s`, or |s| when there is none. */
  function Index<T(==)>(s: seq<T>, c: T): (i: nat)
    ensures i <= |s|
  {
    if s == [] || s[0] == c then 0 else 1 + Index(s[1..], c)
  }

  lemma {:induction false} IndexIsFirst<T>(s: seq<T>, c: T)
    ensures forall k :: 0 <= k < Index(s, c) ==> s[k] != c
    ensures Index(s, c) < |s| ==> s[Index(s, c)] == c
  {
    if s != [] && s[0] != c {
      IndexIsFirst(s[1..], c);
      forall k | 0 <= k < Index(s, c)
        ensures s[k] != c
      {
        if k > 0 { assert s[k] == s[1..][k - 1]; }
      }
    }
  }

  lemma IndexOf<T>(a: seq<T>, c: T, b: seq<T>)
    requires c !in a
    ensures Index(a + [c] + b, c) == |a|
  {
    var s := a + [c] + b;
    IndexIsFirst(s, c);
    assert s[|a|] == c && s[..|a|] == a;
    assert forall k :: 0 <= k < |a| ==> s[k] in a;
  }

  lemma IndexAbsent<T>(s: seq<T>, c: T)
    ensures Index(s, c) == |s| <==> c !in s
  {
    IndexIsFirst(s, c);
  }

  /** A string is its part before the first `c`, `c`, and the rest. */
  lemma CutAtIndex<T>(s: seq<T>, c: T)
    requires c in s
    ensures Index(s, c) < |s| && c !in s[..Index(s, c)]
    ensures s == s[..Index(s, c)] + [c] + s[Index(s, c) + 1..]
  {
    IndexIsFirst(s, c);
    IndexAbsent(s, c);
    CutAt(s, c, Index(s, c));
  }

  lemma CutAt<T>(s: seq<T>, c: T, i: nat)
    requires i < |s| && s[i] == c && forall k :: 0 <= k < i ==> s[k] != c
    ensures c !in s[..i] && s == s[..i] + [c] + s[i + 1..]
  {
    assert forall k :: 0 <= k < |s[..i]| ==> s[..i][k] == s[k];
  }

  /** strings.Split with a one-element separator: never empty. */
  function Split<T(==)>(s: seq<T>, sep: T): (parts: seq<seq<T>>)
    ensures |parts| >= 1
    decreases |s|
  {
    var i := Index(s, sep);
    if i == |s| then [s] else [s[..i]] + Split(s[i + 1..], sep)
  }

  function Join<T>(parts: seq<seq<T>>, sep: T): seq<T> {
    if parts == [] then []
    else if |parts| == 1 then parts[0]
    else parts[0] + [sep] + Join(parts[1..], sep)
  }

  /** Every part followed by the separator, as in a file of terminated lines. */
  function Ended<T>(parts: seq<seq<T>>, sep: T): seq<T> {
    if parts == [] then [] else parts[0] + [sep] + Ended(parts[1..], sep)
  }

  lemma {:induction false} EndedConcat<T>(a: seq<seq<T>>, b: seq<seq<T>>, sep: T)
    ensures Ended(a + b, sep) == Ended(a, sep) + Ended(b, sep)
  {
    if a == [] {
      assert a + b == b;
    } else {
      assert (a + b)[1..] == a[1..] + b;
      EndedConcat(a[1..], b, sep);
    }
  }

  lemma {:induction false} EndedIsJoin<T>(parts: seq<seq<T>>, sep: T)
    requires parts != []
    ensures Ended(parts, sep) == Join(parts, sep) + [sep]
  {
    if |parts| > 1 {
      EndedIsJoin(parts[1..], sep);
    }
  }

  /** Splitting terminated parts gives them back, and an empty part after the last separator. */
  lemma {:induction false} SplitEnded<T>(parts: seq<seq<T>>, sep: T)
    requires forall i :: 0 <= i < |parts| ==> sep !in parts[i]
    ensures Split(Ended(parts, sep), sep) == parts + [[]]
  {
    if parts == [] {
      SplitWhole<T>([], sep);
    } else {
      SplitHead(parts[0], sep, Ended(parts[1..], sep));
      SplitEnded(parts[1..], sep);
    }
  }

  lemma SplitHead<T>(a: seq<T>, sep: T, b: seq<T>)
    requires sep !in a
    ensures Split(a + [sep] + b, sep) == [a] + Split(b, sep)
  {
    IndexOf(a, sep, b);
    var s := a + [sep] + b;
    assert s[..|a|] == a && s[|a| + 1..] == b;
  }

  lemma SplitWhole<T>(s: seq<T>, sep: T)
    requires sep !in s
    ensures Split(s, sep) == [s]
  {
    IndexAbsent(s, sep);
  }

  lemma {:induction false} SplitConcat<T>(a: seq<T>, sep: T, b: seq<T>)
    ensures Split(a + [sep] + b, sep) == Split(a, sep) + Split(b, sep)
    decreases |a|
  {
    if sep !in a {
      SplitHead(a, sep, b);
      SplitWhole(a, sep);
    } else {
      CutAtIndex(a, sep);
      var x, y := a[..Index(a, sep)], a[Index(a, sep) + 1..];
      SplitConcat(y, sep, b);
      SplitConcatStep(x, y, sep, b);
    }
  }

  lemma ConcatAssoc<T>(a: seq<T>, b: seq<T>, c: seq<T>)
    ensures a + b + c == a + (b + c)
  {}

  lemma SplitConcatStep<T>(x: seq<T>, y: seq<T>, sep: T, b: seq<T>)
    requires sep !in x
    requires Split(y + [sep] + b, sep) == Split(y, sep) + Split(b, sep)
    ensures
      var a := x + [sep] + y;
      Split(a + [sep] + b, sep) == Split(a, sep) + Split(b, sep)
  {
    ConcatAssoc(x + [sep], y, [sep]);
    ConcatAssoc(x + [sep], y + [sep], b);
    SplitHead(x, sep, y + [sep] + b);
    SplitHead(x, sep, y);
    ConcatAssoc([x], Split(y, sep), Split(b, sep));
  }

  /** Splitting undoes joining when no part holds the separator. */
  lemma {:induction false} SplitJoin<T>(parts: seq<seq<T>>, sep: T)
    requires parts != [] && forall p :: p in parts ==> sep !in p
    ensures Split(Join(parts, sep), sep) == parts
  {
    if |parts| == 1 {
      SplitWhole(parts[0], sep);
    } else {
      SplitHead(parts[0], sep, Join(parts[1..], sep));
      SplitJoin(parts[1..], sep);
    }
  }

  /** Joining undoes splitting, always. */
  lemma {:induction false} JoinSplit<T>(s: seq<T>, sep: T)
    ensures Join(Split(s, sep), sep) == s
    ensures forall p :: p in Split(s, sep) ==> sep !in p
    decreases |s|
  {
    IndexAbsent(s, sep);
    if sep in s {
      CutAtIndex(s, sep);
      var i := Index(s, sep);
      JoinSplit(s[i + 1..], sep);
      assert Split(s, sep)[1..] == Split(s[i + 1..], sep);
    }
  }

  /** A joined string has at least one segment per part, and exactly that many only when
      no part holds the separator. */
  lemma {:induction false} JoinSegments<T>(parts: seq<seq<T>>, sep: T)
    requires parts != []
    ensures |Split(Join(parts, sep), sep)| >= |parts|
    ensures |Split(Join(parts, sep), sep)| == |parts| ==> forall p :: p in parts ==> sep !in p
  {
    var head := parts[0];
    if sep in head {
      IndexAbsent(head, sep);
      assert |Split(head, sep)| >= 2;
    }
    if |parts| == 1 {
      assert forall p :: p in parts ==> p == head;
    } else {
      SplitConcat(head, sep, Join(parts[1..], sep));
      JoinSegments(parts[1..], sep);
      assert parts == [head] + parts[1..];
    }
  }

  lemma {:induction false} JoinSnoc<T>(parts: seq<seq<T>>, last: seq<T>, sep: T)
    requires parts != []
    ensures Join(parts + [last], sep) == Join(parts, sep) + [sep] + last
  {
    var all := parts + [last];
    if |parts| == 1 {
      assert all[1..] == [last];
    } else {
      assert all[1..] == parts[1..] + [last];
      JoinSnoc(parts[1..], last, sep);
    }
  }

  /** The part after the last separator is determined by the whole string. */
  lemma LastSegmentUnique<T>(a: seq<T>, p: seq<T>, b: seq<T>, q: seq<T>, sep: T)
    requires a + [sep] + p == b + [sep] + q
    requires sep !in p && sep !in q
    ensures a == b && p == q
  {
    var s := a + [sep] + p;
    assert s == b + [sep] + q;
    assert forall k :: |a| < k < |s| ==> s[k] == p[k - |a| - 1];
    assert forall k :: |b| < k < |s| ==> s[k] == q[k - |b| - 1];
    assert s[|a|] == sep && s[|b|] == sep;
    assert a == s[..|a|] && p == s[|a| + 1..];
  }

  /** So is the part before the first separator. */
  lemma FirstSegmentUnique<T>(p: seq<T>, a: seq<T>, q: seq<T>, b: seq<T>, sep: T)
    requires p + [sep] + a == q + [sep] + b
    requires sep !in p && sep !in q
    ensures p == q && a == b
  {
    IndexOf(p, sep, a);
    IndexOf(q, sep, b);
    var s := p + [sep] + a;
    assert p == s[..|p|] && q == s[..|q|];
    assert a == s[|p| + 1..] && b == s[|q| + 1..];
  }
}
