/** Byte strings, write commands, and the sizes and concatenation of a list of commands. */
module Bytes {
  type byte = x: int | 0 <= x < 256

  const NEWLINE: byte := 10

  type Command = seq<byte>

  datatype Option<+T> = None | Some(value: T)

  /** The commands joined end to end. */
  function Flatten(cs: seq<Command>): seq<byte> {
    if |cs| == 0 then [] else Flatten(cs[..|cs| - 1]) + cs[|cs| - 1]
  }

  function Sizes(cs: seq<Command>): seq<nat> {
    seq(|cs|, i requires 0 <= i < |cs| => |cs[i]|)
  }

  /** Sum of the first n sizes. */
  function PrefixSum(sizes: seq<nat>, n: nat): nat
    requires n <= |sizes|
  {
    if n == 0 then 0 else PrefixSum(sizes, n - 1) + sizes[n - 1]
  }

  function Total(sizes: seq<nat>): nat {
    PrefixSum(sizes, |sizes|)
  }

  lemma FlattenAppend(cs: seq<Command>, c: Command)
    ensures Flatten(cs + [c]) == Flatten(cs) + c
  {
    assert (cs + [c])[..|cs|] == cs;
  }

  lemma FlattenOne(c: Command)
    ensures Flatten([c]) == c
  {
    FlattenAppend([], c);
    assert [] + [c] == [c];
  }

  lemma {:induction false} FlattenConcat(a: seq<Command>, b: seq<Command>)
    ensures Flatten(a + b) == Flatten(a) + Flatten(b)
    decreases |b|
  {
    if |b| == 0 {
      assert a + b == a;
    } else {
      var b', c := b[..|b| - 1], b[|b| - 1];
      FlattenConcat(a, b');
      assert a + b == (a + b') + [c];
      FlattenAppend(a + b', c);
      assert Flatten(b) == Flatten(b') + c;
    }
  }

  lemma {:induction false} PrefixSumConcat(a: seq<nat>, b: seq<nat>, n: nat)
    requires n <= |a| + |b|
    ensures PrefixSum(a + b, n)
         == if n <= |a| then PrefixSum(a, n) else Total(a) + PrefixSum(b, n - |a|)
    decreases n
  {
    if n != 0 {
      PrefixSumConcat(a, b, n - 1);
    }
  }

  /** A rotated list of sizes has the same total. */
  lemma TotalRotate(a: seq<nat>, b: seq<nat>)
    ensures Total(a + b) == Total(a) + Total(b) == Total(b + a)
  {
    PrefixSumConcat(a, b, |a| + |b|);
    PrefixSumConcat(b, a, |b| + |a|);
  }

  lemma {:induction false} PrefixSumMonotone(sizes: seq<nat>, m: nat, n: nat)
    requires m <= n <= |sizes|
    ensures PrefixSum(sizes, m) <= PrefixSum(sizes, n)
    decreases n
  {
    if m < n {
      PrefixSumMonotone(sizes, m, n - 1);
    }
  }

  lemma FlattenPrefix(cs: seq<Command>, n: nat)
    requires n <= |cs|
    ensures |Flatten(cs[..n])| == PrefixSum(Sizes(cs), n)
    ensures Flatten(cs[..n]) <= Flatten(cs)
  {
    hide Flatten;
    FlattenLength(cs, n);
    assert cs == cs[..n] + cs[n..];
    FlattenConcat(cs[..n], cs[n..]);
  }

  lemma {:induction false} FlattenLength(cs: seq<Command>, n: nat)
    requires n <= |cs|
    ensures |Flatten(cs[..n])| == PrefixSum(Sizes(cs), n)
  {
    if n != 0 {
      FlattenLength(cs, n - 1);
      assert cs[..n][..n - 1] == cs[..n - 1];
    }
  }

  lemma FlattenTotal(cs: seq<Command>)
    ensures |Flatten(cs)| == Total(Sizes(cs))
  {
    FlattenLength(cs, |cs|);
    assert cs[..|cs|] == cs;
  }

  /** Byte o of command a sits at the summed size of the commands before it, plus o. */
  lemma FlattenIndex(cs: seq<Command>, a: nat, o: nat)
    requires a < |cs| && o < |cs[a]|
    ensures var p := PrefixSum(Sizes(cs), a) + o;
            p < |Flatten(cs)| && Flatten(cs)[p] == cs[a][o]
  {
    FlattenPrefix(cs, a + 1);
    FlattenLength(cs, a);
    assert cs[..a + 1][..a] == cs[..a];
  }
}
