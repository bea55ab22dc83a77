/**
 * Sequence and string helpers the catalog's derived attributes are built from:
 * a filter (a queryset `.filter(...)` over related records kept in a sequence),
 * Python's `", ".join(...)` and its inverse `str.split(", ")`.
 */
module Collections {

  /** The elements of `s` that satisfy `p`, in their order in `s`. */
  function Filter<T(!new)>(p: T -> bool, s: seq<T>): (r: seq<T>)
    ensures |r| <= |s|
    ensures forall i :: 0 <= i < |r| ==> p(r[i])
    ensures forall x :: x in r <==> x in s && p(x)
  {
    if s == [] then []
    else (if p(s[0]) then [s[0]] else []) + Filter(p, s[1..])
  }

  /** Filtering keeps each element that satisfies `p` as many times as it occurs, and drops every other. */
  lemma {:induction false} FilterMultiplicity<T(!new)>(p: T -> bool, s: seq<T>)
    ensures forall x :: multiset(Filter(p, s))[x] == if p(x) then multiset(s)[x] else 0
  {
    if s != [] {
      assert s == [s[0]] + s[1..];
      FilterMultiplicity(p, s[1..]);
    }
  }

  /** Filtering distributes over concatenation. */
  lemma {:induction false} FilterConcat<T(!new)>(p: T -> bool, s: seq<T>, t: seq<T>)
    ensures Filter(p, s + t) == Filter(p, s) + Filter(p, t)
  {
    if s == [] {
      assert s + t == t;
    } else {
      assert (s + t)[0] == s[0];
      assert (s + t)[1..] == s[1..] + t;
      FilterConcat(p, s[1..], t);
    }
  }

  /** Filtering a single element keeps it exactly when it satisfies `p`. */
  lemma FilterSingleton<T(!new)>(p: T -> bool, x: T)
    ensures Filter(p, [x]) == if p(x) then [x] else []
  {
  }

  /** Filtering a sequence around one element: the element contributes itself or nothing. */
  lemma FilterAround<T(!new)>(p: T -> bool, pre: seq<T>, x: T, post: seq<T>)
    ensures Filter(p, pre + [x] + post) == Filter(p, pre) + (if p(x) then [x] else []) + Filter(p, post)
  {
    FilterConcat(p, pre + [x], post);
    FilterConcat(p, pre, [x]);
    FilterSingleton(p, x);
  }

  /** `[f(x) for x in s]`. */
  function MapSeq<T, U>(f: T -> U, s: seq<T>): (r: seq<U>)
    ensures |r| == |s|
  {
    if s == [] then [] else [f(s[0])] + MapSeq(f, s[1..])
  }

  lemma {:induction false} MapSeqAt<T, U>(f: T -> U, s: seq<T>, i: nat)
    requires i < |s|
    ensures MapSeq(f, s)[i] == f(s[i])
  {
    if i > 0 {
      MapSeqAt(f, s[1..], i - 1);
    }
  }

  lemma MapSeqAll<T, U>(f: T -> U, s: seq<T>)
    ensures forall i :: 0 <= i < |s| ==> MapSeq(f, s)[i] == f(s[i])
  {
    forall i | 0 <= i < |s| ensures MapSeq(f, s)[i] == f(s[i]) {
      MapSeqAt(f, s, i);
    }
  }

  lemma {:induction false} MapConcat<T, U>(f: T -> U, s: seq<T>, t: seq<T>)
    ensures MapSeq(f, s + t) == MapSeq(f, s) + MapSeq(f, t)
  {
    if s == [] {
      assert s + t == t;
    } else {
      assert (s + t)[1..] == s[1..] + t;
      MapConcat(f, s[1..], t);
    }
  }

  /** Taking one element out of the middle of a sequence takes its image out of the mapped sequence. */
  lemma MapTakeOut<T, U>(f: T -> U, pre: seq<T>, x: T, post: seq<T>)
    ensures multiset(MapSeq(f, pre + ([x] + post))) == multiset{f(x)} + multiset(MapSeq(f, pre + post))
  {
    MapConcat(f, pre, post);
    MapConcat(f, pre, [x] + post);
    MapConcat(f, [x], post);
    assert MapSeq(f, [x]) == [f(x)];
    var mp, mq := MapSeq(f, pre), MapSeq(f, post);
    assert MapSeq(f, pre + ([x] + post)) == mp + ([f(x)] + mq);
    assert multiset(mp + ([f(x)] + mq)) == multiset(mp) + multiset{f(x)} + multiset(mq);
    assert multiset(mp + mq) == multiset(mp) + multiset(mq);
  }

  /** Mapping a permutation gives a permutation of the images. */
  lemma {:induction false} MapMultiset<T, U>(f: T -> U, s: seq<T>, t: seq<T>)
    requires multiset(s) == multiset(t)
    ensures multiset(MapSeq(f, s)) == multiset(MapSeq(f, t))
    decreases |s|
  {
    if s != [] {
      var x := s[0];
      assert x in multiset(t);
      var j :| 0 <= j < |t| && t[j] == x;
      var pre, post := t[..j], t[j + 1..];
      var rest := pre + post;
      assert t == pre + ([x] + post);
      assert s == [x] + s[1..];
      assert multiset(s[1..]) == multiset(rest) by {
        MultisetTail([x] + s[1..], [x] + rest);
        assert ([x] + s[1..])[1..] == s[1..];
        assert ([x] + rest)[1..] == rest;
      }
      MapMultiset(f, s[1..], rest);
      MapTakeOut(f, pre, x, post);
      MapConcat(f, [x], s[1..]);
      assert MapSeq(f, [x]) == [f(x)];
      assert MapSeq(f, s) == [f(x)] + MapSeq(f, s[1..]);
    }
  }

  /** Two sequences with the same elements and the same head have tails with the same elements. */
  lemma MultisetTail<T>(s: seq<T>, t: seq<T>)
    requires s != [] && t != [] && s[0] == t[0] && multiset(s) == multiset(t)
    ensures multiset(s[1..]) == multiset(t[1..])
  {
    assert s == [s[0]] + s[1..];
    assert t == [t[0]] + t[1..];
    var a, b := multiset(s[1..]), multiset(t[1..]);
    assert multiset(s) == multiset{s[0]} + a;
    assert multiset(t) == multiset{s[0]} + b;
    forall y ensures a[y] == b[y] {
      assert (multiset{s[0]} + a)[y] == (multiset{s[0]} + b)[y];
    }
  }

  /** Python's `sep.join(parts)`. */
  function Join(sep: string, parts: seq<string>): (s: string)
    ensures parts == [] ==> s == ""
    ensures |parts| == 1 ==> s == parts[0]
    ensures |s| == SumLengths(parts) + (if parts == [] then 0 else |sep| * (|parts| - 1))
  {
    if |parts| == 0 then ""
    else if |parts| == 1 then parts[0]
    else parts[0] + sep + Join(sep, parts[1..])
  }

  /** Total length of the strings in `parts`. */
  function SumLengths(parts: seq<string>): nat
  {
    if parts == [] then 0 else |parts[0]| + SumLengths(parts[1..])
  }

  /** Python's `s.split(", ")`: the pieces between the separator's non-overlapping occurrences, left to right. */
  function SplitCommaSpace(s: string): (r: seq<string>)
    ensures |r| >= 1
    decreases |s|
  {
    if |s| == 0 then [""]
    else if |s| >= 2 && s[0] == ',' && s[1] == ' ' then [""] + SplitCommaSpace(s[2..])
    else
      var rest := SplitCommaSpace(s[1..]);
      [[s[0]] + rest[0]] + rest[1..]
  }

  predicate NoComma(w: string)
  {
    forall i :: 0 <= i < |w| ==> w[i] != ','
  }

  /** A piece free of commas is read as the beginning of the first field. */
  lemma {:induction false} SplitAfterWord(w: string, t: string)
    requires NoComma(w)
    ensures SplitCommaSpace(w + t) == [w + SplitCommaSpace(t)[0]] + SplitCommaSpace(t)[1..]
  {
    if |w| == 0 {
      assert w + t == t;
      assert w + SplitCommaSpace(t)[0] == SplitCommaSpace(t)[0];
      assert [SplitCommaSpace(t)[0]] + SplitCommaSpace(t)[1..] == SplitCommaSpace(t);
    } else {
      assert (w + t)[0] == w[0];
      assert (w + t)[1..] == w[1..] + t;
      assert NoComma(w[1..]) by {
        forall i | 0 <= i < |w[1..]| ensures w[1..][i] != ',' {
          assert w[1..][i] == w[i + 1];
        }
      }
      SplitAfterWord(w[1..], t);
      assert [w[0]] + (w[1..] + SplitCommaSpace(t)[0]) == w + SplitCommaSpace(t)[0];
    }
  }

  /**
   * Splitting undoes joining with ", " when no part contains a comma. The parts must be
   * non-empty as a list: `", ".join([])` and `", ".join([""])` are both "".
   */
  lemma {:induction false} SplitJoin(parts: seq<string>)
    requires |parts| >= 1
    requires forall i :: 0 <= i < |parts| ==> NoComma(parts[i])
    ensures SplitCommaSpace(Join(", ", parts)) == parts
  {
    if |parts| == 1 {
      SplitAfterWord(parts[0], "");
      assert parts[0] + "" == parts[0];
      assert parts == [parts[0]];
    } else {
      var rest := Join(", ", parts[1..]);
      SplitJoin(parts[1..]);
      assert Join(", ", parts) == parts[0] + (", " + rest);
      SplitAfterWord(parts[0], ", " + rest);
      assert (", " + rest)[2..] == rest;
      assert SplitCommaSpace(", " + rest) == [""] + parts[1..];
      assert parts[0] + "" == parts[0];
      assert parts == [parts[0]] + parts[1..];
    }
  }
}
