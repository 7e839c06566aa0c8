/** The sequence allocator shared by the Student, MasterStudent and Professor
    services: look up (or lazily start at 0) the counter row for a prefix,
    increment it, mint `prefix + value`; and on delete, give the slot back
    when the deleted index is the last one issued. */
module Allocator {
  import opened Results
  import opened Decimal

  /** Students and master students share "S"; professors use "P". */
  const StudentPrefix: string := "S"
  const ProfessorPrefix: string := "P"

  /** The SequenceCounters table: prefix (its primary key) to CurrentValue. */
  type Counters = map<string, int32>

  /** `CurrentValue++` on a C# `int` (unchecked: wraps at the top). */
  function Increment(v: int32): (r: int32)
    ensures (v as int) < MaxInt32 ==> r as int == v as int + 1
    ensures (v as int) == MaxInt32 ==> r as int == MinInt32
  {
    if v as int == MaxInt32 then MinInt32 as int32 else v + 1
  }

  /** `CurrentValue--` on a C# `int` (unchecked: wraps at the bottom). */
  function Decrement(v: int32): (r: int32)
    ensures (v as int) > MinInt32 ==> r as int == v as int - 1
    ensures (v as int) == MinInt32 ==> r as int == MaxInt32
  {
    if v as int == MinInt32 then MaxInt32 as int32 else v - 1
  }

  /** The counter's value before an allocation: the stored row, or the new
      row created at 0 when there is none. */
  function CurrentOrZero(c: Counters, prefix: string): int32 {
    if prefix in c then c[prefix] else 0
  }

  /** `$"{counter.Prefix}{counter.CurrentValue}"`. */
  function Mint(prefix: string, value: int32): string {
    prefix + FormatInt(value as int)
  }

  datatype Allocation = Allocation(counters: Counters, value: int32, index: string)

  /** next_identifier: the counter for `prefix` (created at 0 if missing) goes
      up by one, every other counter is untouched, and the minted index is the
      prefix followed by the new value. */
  function Allocate(c: Counters, prefix: string): (a: Allocation)
    ensures a.counters.Keys == c.Keys + {prefix}
    ensures a.value == Increment(CurrentOrZero(c, prefix)) && a.counters[prefix] == a.value
    ensures forall p :: p in c && p != prefix ==> a.counters[p] == c[p]
    ensures a.index == Mint(prefix, a.value)
  {
    var v := Increment(CurrentOrZero(c, prefix));
    Allocation(c[prefix := v], v, Mint(prefix, v))
  }

  /** `int.TryParse(index.Substring(1), out n)`: the number after the first
      character, if it parses. */
  function IndexNumber(index: string): (r: Option<int32>)
    requires |index| >= 1
    ensures r.Some? ==> |index| >= 2
  {
    ParseInt32(index[1..])
  }

  /** release_if_last: when a counter exists for `prefix` and the deleted
      index's number equals its current value, step it back by one; in every
      other case (no counter, unparsable suffix, an older number) nothing
      changes. */
  function ReleaseIfLast(c: Counters, prefix: string, index: string): (r: Counters)
    requires prefix in c ==> |index| >= 1
    ensures r.Keys == c.Keys
    ensures forall p :: p in c && p != prefix ==> r[p] == c[p]
    ensures prefix in c && IndexNumber(index) == Some(c[prefix]) ==> r[prefix] == Decrement(c[prefix])
    ensures prefix !in c || IndexNumber(index) != Some(c[prefix]) ==> r == c
  {
    if prefix in c && IndexNumber(index) == Some(c[prefix]) then c[prefix := Decrement(c[prefix])]
    else c
  }

  /** Giving back the index just allocated restores the counter to its value
      before the allocation (0 when the row was created by that allocation),
      even across the 32-bit wrap-around. */
  lemma ReleaseUndoesAllocate(c: Counters, prefix: string)
    requires |prefix| == 1
    ensures var a := Allocate(c, prefix);
      ReleaseIfLast(a.counters, prefix, a.index) == c[prefix := CurrentOrZero(c, prefix)]
  {
    var a := Allocate(c, prefix);
    assert a.index[1..] == FormatInt(a.value as int);
    FormatParseRoundTrip(a.value);
  }

  /** Giving back the index that holds the counter's current value and
      allocating again issues that same index and restores the counters. */
  lemma ReleaseLastThenAllocate(c: Counters, prefix: string)
    requires |prefix| == 1 && prefix in c
    ensures var a := Allocate(ReleaseIfLast(c, prefix, Mint(prefix, c[prefix])), prefix);
      a.index == Mint(prefix, c[prefix]) && a.counters == c
  {
    var v := c[prefix];
    assert Mint(prefix, v)[1..] == FormatInt(v as int);
    FormatParseRoundTrip(v);
    var r := ReleaseIfLast(c, prefix, Mint(prefix, v));
    assert r == c[prefix := Decrement(v)];
    assert Increment(Decrement(v)) == v;
    assert r[prefix := v] == c;
  }

  /** Deleting an entity whose number is not the counter's current value
      leaves every counter as it was: the gap it leaves is never reused. */
  lemma ReleaseOfOlderIndexKeepsCounters(c: Counters, prefix: string, value: int32)
    requires |prefix| == 1 && prefix in c && value != c[prefix]
    ensures ReleaseIfLast(c, prefix, Mint(prefix, value)) == c
  {
    assert Mint(prefix, value)[1..] == FormatInt(value as int);
    FormatParseRoundTrip(value);
  }

  /** Two indices minted under one prefix are equal only if their values are. */
  lemma MintInjective(prefix: string, a: int32, b: int32)
    requires Mint(prefix, a) == Mint(prefix, b)
    ensures a == b
  {
    assert FormatInt(a as int) == Mint(prefix, a)[|prefix|..];
    assert FormatInt(b as int) == Mint(prefix, b)[|prefix|..];
    FormatInjective(a, b);
  }

  /** `n` allocations in a row under one prefix: the final counters and the
      indices issued, in order. */
  function AllocateMany(c: Counters, prefix: string, n: nat): (r: (Counters, seq<string>))
    ensures |r.1| == n
    decreases n
  {
    if n == 0 then (c, [])
    else
      var a := Allocate(c, prefix);
      var rest := AllocateMany(a.counters, prefix, n - 1);
      (rest.0, [a.index] + rest.1)
  }

  /** n allocations are one allocation followed by n-1 more. */
  lemma AllocateManyHead(c: Counters, prefix: string, n: nat)
    requires n > 0
    ensures var a := Allocate(c, prefix); var rest := AllocateMany(a.counters, prefix, n - 1);
      AllocateMany(c, prefix, n) == (rest.0, [a.index] + rest.1)
  {
  }

  /** Below the top of the range, one allocation issues prefix+(v+1) and
      leaves the counter at v+1. */
  lemma AllocateNext(c: Counters, prefix: string)
    requires CurrentOrZero(c, prefix) as int < MaxInt32
    ensures var a := Allocate(c, prefix);
      && CurrentOrZero(a.counters, prefix) as int == CurrentOrZero(c, prefix) as int + 1
      && a.index == Mint(prefix, (CurrentOrZero(c, prefix) as int + 1) as int32)
  {
  }

  /** Starting from value v (with no wrap-around on the way), n allocations
      leave the counter at v+n. */
  lemma {:induction false} AllocateManyCounter(c: Counters, prefix: string, n: nat)
    requires CurrentOrZero(c, prefix) as int + n <= MaxInt32
    ensures CurrentOrZero(AllocateMany(c, prefix, n).0, prefix) as int == CurrentOrZero(c, prefix) as int + n
    decreases n
  {
    if n > 0 {
      AllocateNext(c, prefix);
      AllocateManyHead(c, prefix, n);
      AllocateManyCounter(Allocate(c, prefix).counters, prefix, n - 1);
    }
  }

  /** The counter values `n` allocations in a row take. */
  function AllocatedValues(c: Counters, prefix: string, n: nat): (vs: seq<int32>)
    ensures |vs| == n
    decreases n
  {
    if n == 0 then []
    else
      var a := Allocate(c, prefix);
      [a.value] + AllocatedValues(a.counters, prefix, n - 1)
  }

  /** The k-th index issued is the prefix followed by the k-th value taken. */
  lemma {:induction false} AllocateManyMints(c: Counters, prefix: string, n: nat)
    ensures forall k :: 0 <= k < n ==>
      AllocateMany(c, prefix, n).1[k] == Mint(prefix, AllocatedValues(c, prefix, n)[k])
    decreases n
  {
    if n > 0 {
      var a := Allocate(c, prefix);
      AllocateManyHead(c, prefix, n);
      AllocateManyMints(a.counters, prefix, n - 1);
      var issued := AllocateMany(c, prefix, n).1;
      var rest := AllocateMany(a.counters, prefix, n - 1).1;
      var vs := AllocatedValues(c, prefix, n);
      var restValues := AllocatedValues(a.counters, prefix, n - 1);
      assert vs == [a.value] + restValues;
      forall k | 0 <= k < n ensures issued[k] == Mint(prefix, vs[k]) {
        if k > 0 {
          assert issued[k] == rest[k - 1] && vs[k] == restValues[k - 1];
        }
      }
    }
  }

  /** Without wrap-around, the values taken are v+1, ..., v+n. */
  lemma {:induction false} AllocatedValuesConsecutive(c: Counters, prefix: string, n: nat)
    requires CurrentOrZero(c, prefix) as int + n <= MaxInt32
    ensures forall k :: 0 <= k < n ==>
      AllocatedValues(c, prefix, n)[k] as int == CurrentOrZero(c, prefix) as int + k + 1
    decreases n
  {
    if n > 0 {
      var a := Allocate(c, prefix);
      AllocateNext(c, prefix);
      AllocatedValuesConsecutive(a.counters, prefix, n - 1);
      var vs := AllocatedValues(c, prefix, n);
      var restValues := AllocatedValues(a.counters, prefix, n - 1);
      forall k | 0 <= k < n ensures vs[k] as int == CurrentOrZero(c, prefix) as int + k + 1 {
        if k > 0 {
          assert vs[k] == restValues[k - 1];
        }
      }
    }
  }

  /** Starting from value v (with no wrap-around on the way), n allocations
      issue prefix+(v+1) ... prefix+(v+n) and leave the counter at v+n. */
  lemma AllocateManyIssuesConsecutive(c: Counters, prefix: string, n: nat)
    requires CurrentOrZero(c, prefix) as int + n <= MaxInt32
    ensures var r := AllocateMany(c, prefix, n);
      && CurrentOrZero(r.0, prefix) as int == CurrentOrZero(c, prefix) as int + n
      && forall k :: 0 <= k < n ==> r.1[k] == Mint(prefix, (CurrentOrZero(c, prefix) as int + k + 1) as int32)
  {
    AllocateManyCounter(c, prefix, n);
    AllocateManyMints(c, prefix, n);
    AllocatedValuesConsecutive(c, prefix, n);
    var vs := AllocatedValues(c, prefix, n);
    forall k | 0 <= k < n
      ensures AllocateMany(c, prefix, n).1[k] == Mint(prefix, (CurrentOrZero(c, prefix) as int + k + 1) as int32)
    {
      assert vs[k] == (CurrentOrZero(c, prefix) as int + k + 1) as int32;
    }
  }

  /** Under correct sequential use (no wrap-around), n allocations never
      issue the same index twice. */
  lemma AllocateManyDistinct(c: Counters, prefix: string, n: nat)
    requires CurrentOrZero(c, prefix) as int + n <= MaxInt32
    ensures var r := AllocateMany(c, prefix, n);
      forall i, j :: 0 <= i < j < n ==> r.1[i] != r.1[j]
  {
    var r := AllocateMany(c, prefix, n);
    var v := CurrentOrZero(c, prefix) as int;
    AllocateManyIssuesConsecutive(c, prefix, n);
    forall i, j | 0 <= i < j < n ensures r.1[i] != r.1[j] {
      assert r.1[i] == Mint(prefix, (v + i + 1) as int32);
      assert r.1[j] == Mint(prefix, (v + j + 1) as int32);
      DistinctValuesMintDistinct(prefix, v + i + 1, v + j + 1);
    }
  }

  lemma DistinctValuesMintDistinct(prefix: string, a: int, b: int)
    requires MinInt32 <= a < b <= MaxInt32
    ensures Mint(prefix, a as int32) != Mint(prefix, b as int32)
  {
    if Mint(prefix, a as int32) == Mint(prefix, b as int32) {
      MintInjective(prefix, a as int32, b as int32);
    }
  }
}
