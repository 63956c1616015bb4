/** Message ids: a thread-local 20-digit decimal counter with a random start. */
module MsgIds {
  import opened Bytes

  const ID_LENGTH := 20
  const LIMIT := 100_000_000_000_000_000_000   // 10^20

  type Digit = d: char | '0' <= d <= '9' witness '0'

  function Power10(n: nat): (p: nat)
    ensures p > 0
  {
    if n == 0 then 1 else 10 * Power10(n - 1)
  }

  /** The number a digit string stands for. */
  function Value(s: seq<Digit>): nat {
    if s == [] then 0 else 10 * Value(s[..|s| - 1]) + (s[|s| - 1] - '0') as int
  }

  lemma LimitIsPower()
    ensures Power10(ID_LENGTH) == LIMIT
  {
    assert Power10(5) == 100_000;
    PowerAdd(5, 5);
    PowerAdd(10, 10);
  }

  lemma {:induction false} PowerAdd(a: nat, b: nat)
    ensures Power10(a + b) == Power10(a) * Power10(b)
  {
    if b > 0 {
      PowerAdd(a, b - 1);
    }
  }

  lemma {:induction false} ValueBound(s: seq<Digit>)
    ensures Value(s) < Power10(|s|)
  {
    if s != [] {
      ValueBound(s[..|s| - 1]);
    }
  }

  /** The digits after the carry: trailing nines become zeros, the digit before them goes up by one;
      a string of nines becomes zeros. */
  function Increment(s: seq<Digit>): (t: seq<Digit>)
    ensures |t| == |s|
  {
    if s == [] then []
    else
      var n := |s| - 1;
      if s[n] == '9' then Increment(s[..n]) + ['0'] else s[..n] + [s[n] + 1 as char]
  }

  /** Incrementing adds one, modulo 10^length. */
  lemma {:induction false} IncrementAddsOne(s: seq<Digit>)
    ensures Value(Increment(s)) == if Value(s) + 1 == Power10(|s|) then 0 else Value(s) + 1
  {
    if s != [] {
      var n := |s| - 1;
      IncrementAddsOne(s[..n]);
      ValueBound(s[..n]);
      var t := Increment(s);
      assert t[..n] == if s[n] == '9' then Increment(s[..n]) else s[..n];
    }
  }

  function Increments(s: seq<Digit>, k: nat): (t: seq<Digit>)
    ensures |t| == |s|
  {
    if k == 0 then s else Increment(Increments(s, k - 1))
  }

  /** k increments add k, modulo 10^20. */
  lemma {:induction false} IncrementsAdd(s: seq<Digit>, k: nat)
    requires |s| == ID_LENGTH
    ensures Value(Increments(s, k)) == (Value(s) + k) % LIMIT
  {
    hide Value, Increment, Power10;
    LimitIsPower();
    ValueBound(s);
    if k > 0 {
      IncrementsAdd(s, k - 1);
      IncrementAddsOne(Increments(s, k - 1));
      ModNext(Value(s) + k - 1);
    }
  }

  lemma ModNext(a: nat)
    ensures (a + 1) % LIMIT == if a % LIMIT + 1 == LIMIT then 0 else a % LIMIT + 1
  {
  }

  lemma ModEqual(a: nat, b: nat)
    requires a <= b
    ensures a % LIMIT == b % LIMIT <==> (b - a) % LIMIT == 0
  {
    var qa, qb, q := a / LIMIT, b / LIMIT, (b - a) / LIMIT;
    assert a == LIMIT * qa + a % LIMIT;
    assert b == LIMIT * qb + b % LIMIT;
    assert b - a == LIMIT * q + (b - a) % LIMIT;
  }

  lemma IncrementsEqualIff(s: seq<Digit>, i: nat, j: nat)
    requires |s| == ID_LENGTH && i <= j
    ensures Increments(s, i) == Increments(s, j) <==> (j - i) % LIMIT == 0
  {
    hide Increments, Value;
    IncrementsAdd(s, i);
    IncrementsAdd(s, j);
    ModEqual(Value(s) + i, Value(s) + j);
    if Value(Increments(s, i)) == Value(Increments(s, j)) {
      ValueInjective(Increments(s, i), Increments(s, j));
    }
  }

  lemma {:induction false} ValueInjective(s: seq<Digit>, t: seq<Digit>)
    requires |s| == |t| && Value(s) == Value(t)
    ensures s == t
  {
    if s != [] {
      var n := |s| - 1;
      ValueInjective(s[..n], t[..n]);
      assert s == s[..n] + [s[n]] && t == t[..n] + [t[n]];
    }
  }

  // ---------------------------------------------------------------------
  // The seeding state machine
  // ---------------------------------------------------------------------

  /** t_msg_id_no and t_max_msg_id_no. */
  datatype Counter = Counter(idNo: seq<Digit>, maxNo: seq<Digit>)

  function Repeat(d: Digit, n: nat): (s: seq<Digit>)
    ensures |s| == n && forall k :: 0 <= k < n ==> s[k] == d
  {
    seq(n, _ => d)
  }

  lemma RepeatMore(d: Digit, m: nat, n: nat)
    ensures Repeat(d, m) + Repeat(d, n) == Repeat(d, m + n)
  {
  }

  function Seed(random: seq<byte>): (s: seq<Digit>)
    ensures |s| == |random| && forall k :: 0 <= k < |s| ==> s[k] == '0' + (random[k] % 10) as char
  {
    seq(|random|, k requires 0 <= k < |random| => ('0' + (random[k] % 10) as char) as Digit)
  }

  predicate NeedsSeed(c: Counter) {
    c.idNo == [] || c.idNo == c.maxNo
  }

  /** One call; random is what the read from /dev/urandom returned, if it comes to a read. */
  function Generate(c: Counter, random: seq<byte>): Counter {
    if NeedsSeed(c) then
      if |random| != ID_LENGTH then c else Counter(Seed(random), c.maxNo + Repeat('9', ID_LENGTH))
    else c.(idNo := Increment(c.idNo))
  }

  function GenerateAll(c: Counter, randoms: seq<seq<byte>>): Counter
    decreases |randoms|
  {
    if randoms == [] then c else GenerateAll(Generate(c, randoms[0]), randoms[1..])
  }

  /** How many calls seed the counter. */
  function Seedings(c: Counter, randoms: seq<seq<byte>>): nat
    decreases |randoms|
  {
    if randoms == [] then 0
    else (if NeedsSeed(c) && |randoms[0]| == ID_LENGTH then 1 else 0) + Seedings(Generate(c, randoms[0]), randoms[1..])
  }

  /** The counter after a number of seedings. */
  predicate Reachable(c: Counter, seedings: nat) {
    && c.maxNo == Repeat('9', ID_LENGTH * seedings)
    && |c.idNo| == (if seedings == 0 then 0 else ID_LENGTH)
    && seedings <= 2
  }

  /** Over every run: the maximum grows by 20 nines with each successful seeding, ids have 20 digits from the first one
      on, and a thread seeds at most twice. In particular the carry can run out of digits (all
      nines without a new seeding) only after the second. */
  lemma {:induction false} SeedsAtMostTwice(c: Counter, seedings: nat, randoms: seq<seq<byte>>)
    requires Reachable(c, seedings)
    ensures Reachable(GenerateAll(c, randoms), seedings + Seedings(c, randoms))
    ensures var after := GenerateAll(c, randoms);
      !NeedsSeed(after) && after.idNo == Repeat('9', ID_LENGTH) ==> seedings + Seedings(c, randoms) == 2
    decreases |randoms|
  {
    if randoms != [] {
      var next := Generate(c, randoms[0]);
      if NeedsSeed(c) && |randoms[0]| == ID_LENGTH {
        assert seedings < 2;
        RepeatMore('9', ID_LENGTH * seedings, ID_LENGTH);
        SeedsAtMostTwice(next, seedings + 1, randoms[1..]);
      } else {
        SeedsAtMostTwice(next, seedings, randoms[1..]);
      }
    }
  }

  /** No call reads a seed. */
  predicate NoSeeding(c: Counter, randoms: seq<seq<byte>>)
    decreases |randoms|
  {
    randoms == [] || (!NeedsSeed(c) && NoSeeding(Generate(c, randoms[0]), randoms[1..]))
  }

  lemma {:induction false} IncrementFirst(s: seq<Digit>, k: nat)
    ensures Increments(Increment(s), k) == Increments(s, k + 1)
  {
    if k > 0 {
      IncrementFirst(s, k - 1);
    }
  }

  /** Without a seeding, each call increments the number once. */
  lemma {:induction false} GenerateIncrements(c: Counter, randoms: seq<seq<byte>>)
    requires NoSeeding(c, randoms)
    ensures GenerateAll(c, randoms) == c.(idNo := Increments(c.idNo, |randoms|))
    decreases |randoms|
  {
    hide Increment, Seed, Repeat;
    if randoms != [] {
      IncrementFirst(c.idNo, |randoms| - 1);
      GenerateIncrements(Generate(c, randoms[0]), randoms[1..]);
    }
  }

  lemma {:induction false} NoSeedingBefore(c: Counter, randoms: seq<seq<byte>>, n: nat)
    requires NoSeeding(c, randoms) && n <= |randoms|
    ensures NoSeeding(c, randoms[..n])
    decreases n
  {
    if n > 0 {
      NoSeedingBefore(Generate(c, randoms[0]), randoms[1..], n - 1);
      assert randoms[..n][1..] == randoms[1..][..n - 1];
    }
  }

  /** The ids of two calls without a seeding in between are equal if and only if the number of calls
      between them is a multiple of 10^20. */
  lemma IdsDistinct(c: Counter, randoms: seq<seq<byte>>, i: nat, j: nat)
    requires |c.idNo| == ID_LENGTH && NoSeeding(c, randoms) && i <= j <= |randoms|
    ensures GenerateAll(c, randoms[..i]).idNo == GenerateAll(c, randoms[..j]).idNo <==> (j - i) % LIMIT == 0
  {
    hide NoSeeding, GenerateAll;
    NoSeedingBefore(c, randoms, i);
    NoSeedingBefore(c, randoms, j);
    GenerateIncrements(c, randoms[..i]);
    GenerateIncrements(c, randoms[..j]);
    IncrementsEqualIff(c.idNo, i, j);
  }

  // ---------------------------------------------------------------------
  // The generator
  // ---------------------------------------------------------------------

  /** Where the carry stops: everything behind index i is a nine, and i is not. */
  lemma {:induction false} CarryStops(s: seq<Digit>, i: nat)
    requires i < |s| && s[i] != '9' && forall j :: i < j < |s| ==> s[j] == '9'
    ensures Increment(s) == s[..i] + [(s[i] + 1 as char) as Digit] + Repeat('0', |s| - 1 - i)
    decreases |s|
  {
    var n := |s| - 1;
    if i < n {
      CarryStops(s[..n], i);
      assert s[..n][..i] == s[..i];
    } else {
      assert Repeat('0', 0) == [];
    }
  }

  lemma {:induction false} CarryRunsOut(s: seq<Digit>)
    requires forall j :: 0 <= j < |s| ==> s[j] == '9'
    ensures Increment(s) == Repeat('0', |s|)
  {
    if s != [] {
      CarryRunsOut(s[..|s| - 1]);
    }
  }

  class MsgIdGenerator {
    var msgIdNo: seq<Digit>
    var maxMsgIdNo: seq<Digit>
    ghost var seedings: nat

    ghost predicate Valid()
      reads this
    {
      Reachable(State(), seedings)
    }

    ghost function State(): Counter
      reads this
    {
      Counter(msgIdNo, maxMsgIdNo)
    }

    constructor ()
      ensures Valid() && State() == Counter([], [])
    {
      msgIdNo, maxMsgIdNo, seedings := [], [], 0;
      assert Repeat('9', 0) == [];
    }

    /** The empty string reports a failed read. */
    method GenerateMsgId(random: seq<byte>) returns (id: seq<Digit>)
      requires Valid()
      modifies this
      ensures Valid() && State() == Generate(old(State()), random)
      ensures id == if NeedsSeed(old(State())) && |random| != ID_LENGTH then [] else msgIdNo
      ensures id != [] ==> |id| == ID_LENGTH
      ensures old(msgIdNo) == [] || old(msgIdNo) == old(maxMsgIdNo) ==>
        if |random| != ID_LENGTH then msgIdNo == old(msgIdNo) && maxMsgIdNo == old(maxMsgIdNo)
        else
          && maxMsgIdNo == old(maxMsgIdNo) + Repeat('9', ID_LENGTH)
          && forall k :: 0 <= k < ID_LENGTH ==> id[k] as int - '0' as int == random[k] % 10
      ensures !(old(msgIdNo) == [] || old(msgIdNo) == old(maxMsgIdNo)) ==>
        && maxMsgIdNo == old(maxMsgIdNo)
        && Value(id) == (if old(Value(msgIdNo)) + 1 == LIMIT then 0 else old(Value(msgIdNo)) + 1)
    {
      if msgIdNo == [] || msgIdNo == maxMsgIdNo {
        if |random| != ID_LENGTH {
          return [];
        }
        var res := [];
        ghost var before := maxMsgIdNo;
        RepeatMore('9', ID_LENGTH * seedings, ID_LENGTH);
        for i := 0 to ID_LENGTH
          invariant seedings == old(seedings)
          invariant res == Seed(random[..i]) && maxMsgIdNo == before + Repeat('9', i)
        {
          res := res + [('0' + (random[i] % 10) as char) as Digit];
          maxMsgIdNo := maxMsgIdNo + ['9'];
        }
        assert random[..ID_LENGTH] == random;
        msgIdNo := res;
        seedings := seedings + 1;
        assert ID_LENGTH * old(seedings) + ID_LENGTH == ID_LENGTH * seedings;
      } else {
        LimitIsPower();
        IncrementAddsOne(msgIdNo);
        Carry();
      }
      return msgIdNo;
    }

    method Carry()
      requires |msgIdNo| == ID_LENGTH
      modifies this`msgIdNo
      ensures msgIdNo == Increment(old(msgIdNo))
    {
      ghost var s := msgIdNo;
      var i := |msgIdNo| - 1;
      while i >= 0 && msgIdNo[i] == '9'
        invariant -1 <= i < |msgIdNo| && forall j :: i < j < |msgIdNo| ==> msgIdNo[j] == '9'
      {
        i := i - 1;
      }
      if i >= 0 {
        CarryStops(s, i);
        msgIdNo := msgIdNo[i := (msgIdNo[i] + 1 as char) as Digit];
        var j := i + 1;
        while j < |msgIdNo|
          invariant i < j <= |s| && msgIdNo == s[..i] + [(s[i] + 1 as char) as Digit] + Repeat('0', j - i - 1) + s[j..]
        {
          msgIdNo := msgIdNo[j := '0'];
          j := j + 1;
        }
      } else {
        CarryRunsOut(s);
        msgIdNo := Repeat('0', ID_LENGTH);
      }
    }
  }
}
