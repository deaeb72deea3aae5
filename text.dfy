/** String splitting and joining on a one-character separator, with the
    semantics shared by Python's `str.split(sep)` and JavaScript's
    `String.prototype.split(sep)` (empty fields are kept), and the
    `reverse` of JavaScript arrays. */
module Text {

  predicate StartsWith(s: string, prefix: string) {
    |prefix| <= |s| && s[..|prefix|] == prefix
  }

  /** `s.split(c)`: the maximal separator-free fields of `s`, in order. */
  function Split(s: string, c: char): (parts: seq<string>)
    ensures |parts| >= 1
    decreases |s|
  {
    if |s| == 0 then [""]
    else
      var rest := Split(s[1..], c);
      if s[0] == c then [""] + rest
      else [[s[0]] + rest[0]] + rest[1..]
  }

  /** `parts.join(c)`. */
  function Join(parts: seq<string>, c: char): string
    decreases |parts|
  {
    if |parts| == 0 then ""
    else if |parts| == 1 then parts[0]
    else parts[0] + [c] + Join(parts[1..], c)
  }

  function Reverse<T>(s: seq<T>): (r: seq<T>)
    ensures |r| == |s|
  {
    if |s| == 0 then [] else Reverse(s[1..]) + [s[0]]
  }

  /** No field produced by `Split` contains the separator. */
  lemma {:induction false} SplitFieldsFree(s: string, c: char)
    ensures forall i :: 0 <= i < |Split(s, c)| ==> c !in Split(s, c)[i]
    decreases |s|
  {
    if |s| > 0 {
      SplitFieldsFree(s[1..], c);
      var rest := Split(s[1..], c);
      if s[0] != c {
        assert c !in [s[0]] + rest[0];
      }
    }
  }

  /** Joining the fields again gives back the original string. */
  lemma {:induction false} JoinSplit(s: string, c: char)
    ensures Join(Split(s, c), c) == s
    decreases |s|
  {
    if |s| > 0 {
      JoinSplit(s[1..], c);
      var rest := Split(s[1..], c);
      if s[0] == c {
        assert Split(s, c) == [""] + rest;
        assert ([""] + rest)[1..] == rest;
      } else {
        var parts := Split(s, c);
        assert parts == [[s[0]] + rest[0]] + rest[1..];
        if |rest| == 1 {
          assert parts == [[s[0]] + rest[0]];
          assert s == [s[0]] + s[1..];
        } else {
          assert parts[1..] == rest[1..];
          assert Join(rest, c) == rest[0] + [c] + Join(rest[1..], c);
          assert s == [s[0]] + s[1..];
        }
      }
    }
  }

  /** A separator-free prefix becomes part of the first field. */
  lemma {:induction false} SplitFreePrefix(a: string, t: string, c: char)
    requires c !in a
    ensures Split(a + t, c) == [a + Split(t, c)[0]] + Split(t, c)[1..]
    decreases |a|
  {
    if |a| > 0 {
      assert (a + t)[1..] == a[1..] + t;
      SplitFreePrefix(a[1..], t, c);
      assert [a[0]] + (a[1..] + Split(t, c)[0]) == a + Split(t, c)[0];
    } else {
      var parts := Split(t, c);
      assert a + t == t && a + parts[0] == parts[0];
      assert [parts[0]] + parts[1..] == parts;
    }
  }

  /** The fields of `a + [c] + t` are `a` followed by the fields of `t`. */
  lemma SplitAtSeparator(a: string, t: string, c: char)
    requires c !in a
    ensures Split(a + [c] + t, c) == [a] + Split(t, c)
  {
    SplitFreePrefix(a, [c] + t, c);
    assert a + [c] + t == a + ([c] + t);
    assert ([c] + t)[1..] == t;
    assert Split([c] + t, c) == [""] + Split(t, c);
    assert a + "" == a;
    assert ([""] + Split(t, c))[1..] == Split(t, c);
  }

  /** Splitting a join of separator-free fields gives the fields back. */
  lemma {:induction false} SplitJoin(parts: seq<string>, c: char)
    requires |parts| >= 1
    requires forall i :: 0 <= i < |parts| ==> c !in parts[i]
    ensures Split(Join(parts, c), c) == parts
    decreases |parts|
  {
    if |parts| == 1 {
      SplitFreePrefix(parts[0], "", c);
      assert parts[0] + "" == parts[0];
    } else {
      SplitJoin(parts[1..], c);
      SplitAtSeparator(parts[0], Join(parts[1..], c), c);
      assert [parts[0]] + parts[1..] == parts;
    }
  }

  /** The first field is the longest separator-free prefix. */
  lemma {:induction false} FirstField(t: string, c: char)
    ensures Split(t, c)[0] <= t
    ensures c !in Split(t, c)[0]
    ensures |Split(t, c)[0]| == |t| || t[|Split(t, c)[0]|] == c
    decreases |t|
  {
    if |t| > 0 && t[0] != c {
      FirstField(t[1..], c);
    }
  }

  /** A string has at least two fields exactly when it contains the separator. */
  lemma {:induction false} SecondFieldExists(s: string, c: char)
    ensures |Split(s, c)| >= 2 <==> c in s
    decreases |s|
  {
    if |s| > 0 {
      SecondFieldExists(s[1..], c);
      assert c in s <==> s[0] == c || c in s[1..];
    }
  }

  lemma {:induction false} ReverseAt<T>(s: seq<T>, k: nat)
    requires k < |s|
    ensures Reverse(s)[k] == s[|s| - 1 - k]
    decreases |s|
  {
    if k < |s| - 1 {
      ReverseAt(s[1..], k);
    }
  }

  lemma ReverseInvolution<T>(s: seq<T>)
    ensures Reverse(Reverse(s)) == s
  {
    forall k | 0 <= k < |s|
      ensures Reverse(Reverse(s))[k] == s[k]
    {
      ReverseAt(Reverse(s), k);
      ReverseAt(s, |s| - 1 - k);
    }
  }
  /** The position of the first occurrence of `c` in `s`. */
  function IndexOf(s: string, c: char): (i: nat)
    requires c in s
    ensures i < |s| && s[i] == c && c !in s[..i]
  {
    if s[0] == c then 0
    else
      assert c in s[1..] by { assert s == [s[0]] + s[1..]; }
      var j := IndexOf(s[1..], c);
      assert s[..j + 1] == [s[0]] + s[1..][..j];
      j + 1
  }

  /** The longest prefix of `t` that does not contain `c`. */
  function TakeUntil(t: string, c: char): (f: string)
    ensures f <= t && c !in f
    ensures |f| == |t| || t[|f|] == c
  {
    if c in t then t[..IndexOf(t, c)] else t
  }

  /** The first field of a split is the text before the first separator. */
  lemma FirstFieldIsTakeUntil(t: string, c: char)
    ensures Split(t, c)[0] == TakeUntil(t, c)
  {
    var f, g := Split(t, c)[0], TakeUntil(t, c);
    FirstField(t, c);
  }

  /** The second field is the text between the first and the second separator
      (or the end of the string when there is only one separator). */
  lemma SecondField(s: string, c: char)
    requires c in s
    ensures |Split(s, c)| >= 2
    ensures Split(s, c)[1] == TakeUntil(s[IndexOf(s, c) + 1..], c)
  {
    var i := IndexOf(s, c);
    assert s == s[..i] + [c] + s[i + 1..];
    SplitAtSeparator(s[..i], s[i + 1..], c);
    FirstFieldIsTakeUntil(s[i + 1..], c);
  }
}
