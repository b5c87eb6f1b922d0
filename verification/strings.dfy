/** Sequence helpers shared by the tokenizer, the URI functions and the parser. */
module Strings {
  import opened Wrappers

  /** The index of the first occurrence of `c` in `s`, if any. */
  function IndexOf(s: string, c: char): (r: Option<nat>)
    ensures r.Some? ==> r.value < |s| && s[r.value] == c && c !in s[..r.value]
    ensures r.None? ==> c !in s
  {
    if s == [] then None
    else if s[0] == c then Some(0)
    else match IndexOf(s[1..], c)
      case None => None
      case Some(i) =>
        assert s[..i + 1] == [s[0]] + s[1..][..i];
        Some(i + 1)
  }

  /** `k` is the first occurrence of `c` in `s`. */
  lemma {:induction false} IndexOfFirst(s: string, c: char, k: nat)
    requires k < |s| && s[k] == c && c !in s[..k]
    ensures IndexOf(s, c) == Some(k)
    decreases k
  {
    if k > 0 {
      assert s[..k][0] == s[0];
      assert s[1..][..k - 1] == s[..k][1..];
      IndexOfFirst(s[1..], c, k - 1);
    }
  }

  /** Regrouping a concatenation of three parts. */
  lemma Assoc<T>(a: seq<T>, b: seq<T>, c: seq<T>)
    ensures a + b + c == a + (b + c)
  {
  }

  /** Regrouping a concatenation of four parts. */
  lemma Regroup<T>(a: seq<T>, x: seq<T>, b: seq<T>, t: seq<T>)
    ensures a + x + b + t == a + (x + b + t)
  {
  }

  /** The strings of `ss` joined with nothing between them. */
  function Concat(ss: seq<string>): string
  {
    if ss == [] then [] else ss[0] + Concat(ss[1..])
  }

  lemma {:induction false} ConcatSnoc(ss: seq<string>, x: string)
    ensures Concat(ss + [x]) == Concat(ss) + x
  {
    if ss == [] {
      assert [] + [x] == [x];
    } else {
      assert (ss + [x])[1..] == ss[1..] + [x];
      ConcatSnoc(ss[1..], x);
    }
  }

  lemma {:induction false} ConcatAppend(ss: seq<string>, ts: seq<string>)
    ensures Concat(ss + ts) == Concat(ss) + Concat(ts)
  {
    if ss == [] {
      assert [] + ts == ts;
    } else {
      assert (ss + ts)[1..] == ss[1..] + ts;
      ConcatAppend(ss[1..], ts);
    }
  }
}
