/** Byte strings laid end to end, and prefixes of such a stream. */
module Framing {
  import opened Bytes
  import opened Sequences

  /** How many of the strings lie completely within the first n bytes of their stream. */
  ghost function Complete(fs: seq<seq<byte>>, n: int): (k: nat)
    ensures k <= |fs|
  {
    if fs == [] || n < |fs[0]| then 0 else 1 + Complete(fs[1..], n - |fs[0]|)
  }

  /** The bytes behind the complete ones. */
  ghost function Unfinished(fs: seq<seq<byte>>, s: seq<byte>): seq<byte> {
    if fs == [] || |s| < |fs[0]| then s else Unfinished(fs[1..], s[|fs[0]|..])
  }

  lemma {:induction false} CompleteFits(fs: seq<seq<byte>>, s: seq<byte>)
    requires s <= Flatten(fs)
    ensures var k := Complete(fs, |s|);
      s == Flatten(fs[..k]) + Unfinished(fs, s) && Unfinished(fs, s) <= Flatten(fs[k..])
  {
    var k := Complete(fs, |s|);
    if k == 0 {
      assert fs[..0] == [] && fs[0..] == fs;
    } else {
      var a := fs[0];
      DropPrefix(s, a, Flatten(fs[1..]));
      CompleteFits(fs[1..], s[|a|..]);
      assert fs[1..][..k - 1] == fs[..k][1..] && fs[1..][k - 1..] == fs[k..];
      Assoc(a, Flatten(fs[..k][1..]), Unfinished(fs, s));
    }
  }

  lemma DropPrefix(s: seq<byte>, a: seq<byte>, t: seq<byte>)
    requires s <= a + t && |a| <= |s|
    ensures s[|a|..] <= t && s == a + s[|a|..]
  {
  }

  /** When more bytes arrive, it is enough to look at the unfinished string. */
  lemma {:induction false} CompleteMore(fs: seq<seq<byte>>, s: seq<byte>, more: seq<byte>)
    ensures var k := Complete(fs, |s|);
      var later := Unfinished(fs, s) + more;
      && Complete(fs, |s + more|) == k + Complete(fs[k..], |later|)
      && Unfinished(fs, s + more) == Unfinished(fs[k..], later)
  {
    var k := Complete(fs, |s|);
    if k == 0 {
      assert fs[0..] == fs;
    } else {
      var n := |fs[0]|;
      assert (s + more)[n..] == s[n..] + more;
      assert fs[1..][k - 1..] == fs[k..];
      CompleteMore(fs[1..], s[n..], more);
    }
  }

  lemma {:induction false} UnfinishedInStream(fs: seq<seq<byte>>, s: seq<byte>, more: seq<byte>)
    requires s + more <= Flatten(fs)
    ensures Unfinished(fs, s) + more <= Flatten(fs[Complete(fs, |s|)..])
  {
    var k := Complete(fs, |s|);
    assert s <= Flatten(fs);
    CompleteFits(fs, s);
    assert fs == fs[..k] + fs[k..];
    FlattenAppend(fs[..k], fs[k..]);
    CutPrefix(Flatten(fs[..k]), Flatten(fs[k..]), Unfinished(fs, s), more);
  }

  lemma CutPrefix(a: seq<byte>, b: seq<byte>, u: seq<byte>, more: seq<byte>)
    requires (a + u) + more <= a + b
    ensures u + more <= b
  {
    assert b == (a + b)[|a|..] && u + more == ((a + u) + more)[|a|..];
  }

  /** The string s lies in tmp at the given index. */
  predicate At(tmp: seq<byte>, at: nat, s: seq<byte>) {
    at + |s| <= |tmp| && tmp[at..at + |s|] == s
  }

  lemma AtSplit(tmp: seq<byte>, at: nat, a: seq<byte>, b: seq<byte>)
    ensures At(tmp, at, a + b) <==> At(tmp, at, a) && At(tmp, at + |a|, b)
  {
    if at + |a| + |b| <= |tmp| {
      assert tmp[at..at + |a + b|] == tmp[at..at + |a|] + tmp[at + |a|..at + |a| + |b|];
      assert a == (a + b)[..|a|] && b == (a + b)[|a|..];
    }
  }

  lemma AtSplitDrop(s: seq<byte>, g: nat, a: seq<byte>, b: seq<byte>)
    requires At(s, g, a + b)
    ensures At(s, g, a) && At(s[|a|..], g, b)
  {
    AtSplit(s, g, a, b);
  }

  lemma SliceSlice(s: seq<byte>, a: nat, b: nat, c: nat, d: nat)
    requires a <= b <= |s| && c <= d <= b - a
    ensures s[a..b][c..d] == s[a + c..a + d]
  {
    assert forall k :: 0 <= k < d - c ==> s[a..b][c..d][k] == s[a + c..a + d][k];
  }

  lemma SliceAppend(s: seq<byte>, a: nat, b: nat, c: nat)
    requires a <= b <= c <= |s|
    ensures s[a..c] == s[a..b] + s[b..c]
  {
  }
}
