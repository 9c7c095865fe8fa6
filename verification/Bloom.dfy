/**
 The Bloom filter of pkg/bloomfilter/bloom.go over 64-bit machine words, for arbitrary hash functions.
 The ghost field `added` is the set of elements ever inserted; `Valid` says that a bit is set
 exactly when one of them hashes to it, which is what makes Merge exact and negatives certain.
 */
module Bloom {
  import opened Words

  // ----- Words and bits -----

  const WORD := 0x1_0000_0000_0000_0000 // uint64 arithmetic wraps here

  // The bits of the machine words.
  ghost function BitsOf(s: seq<bv64>): (words: seq<Word>)
    ensures |words| == |s| && forall i :: 0 <= i < |s| ==> words[i] == Bits(s[i])
  {
    seq(|s|, i requires 0 <= i < |s| => Bits(s[i]))
  }

  ghost predicate Bit(words: seq<Word>, p: nat)
    requires p < 64 * |words|
  {
    words[p / 64][p % 64]
  }

  // The words hold exactly the bits at `positions`.
  ghost predicate Holds(words: seq<Word>, positions: set<nat>) {
    forall p :: 0 <= p < 64 * |words| ==> (Bit(words, p) <==> p in positions)
  }

  lemma HoldsSet(words: seq<Word>, positions: set<nat>, p: nat)
    requires Holds(words, positions) && p < 64 * |words|
    ensures Holds(words[p / 64 := words[p / 64][p % 64 := true]], positions + {p})
  {
    var words' := words[p / 64 := words[p / 64][p % 64 := true]];
    forall q | 0 <= q < 64 * |words| ensures Bit(words', q) <==> q in positions + {p} {
      assert Bit(words, q) <==> q in positions;
      assert q == p <==> q / 64 == p / 64 && q % 64 == p % 64;
    }
  }

  lemma HoldsOr(a: seq<Word>, b: seq<Word>, c: seq<Word>, s: set<nat>, t: set<nat>)
    requires |a| == |b| == |c| && Holds(a, s) && Holds(b, t)
    requires forall i :: 0 <= i < |c| ==> c[i] == Or(a[i], b[i])
    ensures Holds(c, s + t)
  {
    forall p | 0 <= p < 64 * |c| ensures Bit(c, p) <==> p in s + t {
      assert Bit(a, p) <==> p in s;
      assert Bit(b, p) <==> p in t;
    }
  }

  // The bits determine the words: filters of one size with the same history are identical, in
  // whatever order, how often and through however many merges the elements came in.
  lemma SameBitsSameWords(a: seq<Word>, b: seq<Word>, positions: set<nat>)
    requires |a| == |b| && Holds(a, positions) && Holds(b, positions)
    ensures a == b
  {
    forall i | 0 <= i < |a| ensures a[i] == b[i] {
      forall off | 0 <= off < 64 ensures a[i][off] == b[i][off] {
        var p := 64 * i + off;
        assert p / 64 == i && p % 64 == off;
        assert Bit(a, p) <==> p in positions;
        assert Bit(b, p) <==> p in positions;
      }
    }
  }

  // ----- Hashing -----

  // The two base hashes; nothing is assumed about them.
  datatype Hashes = Hashes(h1: string -> nat, h2: string -> nat)

  function Location(h: Hashes, data: string, i: nat, m: nat): (p: nat)
    requires 0 < m
    ensures p < m
  {
    (h.h1(data) % WORD + i * (h.h2(data) % WORD)) % WORD % m
  }

  // The probes of an element: from its first hash on in steps of its second, in 64 bits.
  ghost predicate Probes(h: Hashes, data: string, g: seq<nat>) {
    && (g != [] ==> g[0] == h.h1(data) % WORD)
    && forall i :: 0 <= i < |g| - 1 ==> g[i + 1] == (g[i] + h.h2(data)) % WORD
  }

  lemma ProbeNext(x: int, y: int)
    ensures (x % WORD + y) % WORD == (x + y % WORD) % WORD
  {
  }

  // The positions are the probes, each taken modulo the size.
  lemma {:induction false} LocationsAreProbes(h: Hashes, data: string, g: seq<nat>, m: nat)
    requires 0 < m && Probes(h, data, g)
    ensures forall i :: 0 <= i < |g| ==> Location(h, data, i, m) == g[i] % m
  {
    if g != [] {
      var i := |g| - 1;
      LocationsAreProbes(h, data, g[..i], m);
      LastProbe(h, data, g);
      assert forall j :: 0 <= j < i ==> g[j] == g[..i][j];
    }
  }

  lemma OneStepMore(i: nat, b: int)
    ensures (i - 1) * b + b == i * b
  {
  }

  lemma {:induction false} LastProbe(h: Hashes, data: string, g: seq<nat>)
    requires g != [] && Probes(h, data, g)
    ensures var i := |g| - 1; g[i] == (h.h1(data) % WORD + i * (h.h2(data) % WORD)) % WORD
  {
    var i, b := |g| - 1, h.h2(data) % WORD;
    if i > 0 {
      var x := h.h1(data) % WORD + (i - 1) * b;
      LastProbe(h, data, g[..i]);
      assert g[..i][i - 1] == g[i - 1];
      ProbeNext(x, h.h2(data));
      OneStepMore(i, b);
    }
  }

  lemma {:induction false} ProbesExist(h: Hashes, data: string, k: nat) returns (g: seq<nat>)
    ensures |g| == k && Probes(h, data, g)
  {
    if k == 0 {
      g := [];
    } else {
      var front := ProbesExist(h, data, k - 1);
      g := front + [if k == 1 then h.h1(data) % WORD else (front[k - 2] + h.h2(data)) % WORD];
    }
  }

  // Every bit that one of `added` hashes to.
  ghost function Covered(h: Hashes, m: nat, k: nat, added: set<string>): (bits: set<nat>)
    requires 0 < m
  {
    set d, i | d in added && 0 <= i < k :: Location(h, d, i, m)
  }

  // The answer a filter holding `added` gives for `data`.
  ghost predicate Positive(h: Hashes, m: nat, k: nat, added: set<string>, data: string)
    requires 0 < m
  {
    forall i :: 0 <= i < k ==> Location(h, data, i, m) in Covered(h, m, k, added)
  }

  // Main theorem: no false negatives, whatever the hashes, the size and the history.
  lemma NoFalseNegatives(h: Hashes, m: nat, k: nat, added: set<string>, data: string)
    requires 0 < m && data in added
    ensures Positive(h, m, k, added, data)
  {
  }

  // Some inserted element has a probe at this position.
  ghost predicate Probed(h: Hashes, m: nat, k: nat, added: set<string>, p: nat)
    requires 0 < m
  {
    exists d, g: seq<nat>, j :: d in added && |g| == k && Probes(h, d, g) && 0 <= j < k && g[j] % m == p
  }

  lemma ProbedIsCovered(h: Hashes, m: nat, k: nat, added: set<string>, p: nat)
    requires 0 < m
    ensures Probed(h, m, k, added, p) <==> p in Covered(h, m, k, added)
  {
    if Probed(h, m, k, added, p) {
      var d, g: seq<nat>, j :| d in added && |g| == k && Probes(h, d, g) && 0 <= j < k && g[j] % m == p;
      LocationsAreProbes(h, d, g, m);
      assert p == Location(h, d, j, m);
    }
    if p in Covered(h, m, k, added) {
      var d, j :| d in added && 0 <= j < k && Location(h, d, j, m) == p;
      var g := ProbesExist(h, d, k);
      LocationsAreProbes(h, d, g, m);
      assert d in added && |g| == k && Probes(h, d, g) && g[j] % m == p;
    }
  }

  // A text is answered positive exactly if each of its probes is one of an inserted element.
  lemma PositiveExactly(h: Hashes, m: nat, k: nat, added: set<string>, data: string, g: seq<nat>)
    requires 0 < m && |g| == k && Probes(h, data, g)
    ensures Positive(h, m, k, added, data) <==> forall i :: 0 <= i < k ==> Probed(h, m, k, added, g[i] % m)
  {
    LocationsAreProbes(h, data, g, m);
    forall i | 0 <= i < k
      ensures Probed(h, m, k, added, g[i] % m) <==> Location(h, data, i, m) in Covered(h, m, k, added)
    {
      ProbedIsCovered(h, m, k, added, g[i] % m);
    }
  }

  // So a filter of one element does say no.
  lemma OneElement(h: Hashes)
    requires h.h1("aa") == 1 && h.h2("aa") == 0 && h.h1("bb") == 2 && h.h2("bb") == 0
    ensures !Positive(h, 64, 3, {"aa"}, "bb")
  {
    forall p | p in Covered(h, 64, 3, {"aa"}) ensures p == 1 {}
    assert Location(h, "bb", 0, 64) == 2;
  }

  lemma CoveredUnion(h: Hashes, m: nat, k: nat, a: set<string>, b: set<string>)
    requires 0 < m
    ensures Covered(h, m, k, a + b) == Covered(h, m, k, a) + Covered(h, m, k, b)
  {
  }

  ghost function Set<T>(s: seq<T>): set<T> {
    set x | x in s
  }

  lemma CoveredOne(h: Hashes, m: nat, k: nat, data: string, locs: seq<nat>)
    requires 0 < m && |locs| == k && forall i :: 0 <= i < k ==> locs[i] == Location(h, data, i, m)
    ensures Covered(h, m, k, {data}) == Set(locs)
  {
    forall p | p in locs ensures p in Covered(h, m, k, {data}) {
      var i :| 0 <= i < |locs| && locs[i] == p;
      assert data in {data} && p == Location(h, data, i, m);
    }
    forall p | p in Covered(h, m, k, {data}) ensures p in locs {
      var d, i :| d in {data} && 0 <= i < k && Location(h, d, i, m) == p;
      assert locs[i] == p;
    }
  }

  datatype MergeResult = Merged | Refused | Blocked

  class BloomFilter {
    const h: Hashes
    const m: nat
    const k: nat
    const bits: array<bv64>
    var count: nat
    ghost var added: set<string>

    ghost predicate Valid()
      reads this, bits
    {
      && 64 <= m == 64 * bits.Length && 0 < k && count < WORD
      && Holds(BitsOf(bits[..]), Covered(h, m, k, added))
    }

    constructor (h: Hashes, slots: nat, k: nat)
      requires 0 < slots && 0 < k
      ensures Valid() && fresh(bits) && this.h == h && m == 64 * slots && this.k == k && added == {} && count == 0
    {
      this.h, this.m, this.k := h, 64 * slots, k;
      bits := new bv64[slots](_ => 0);
      count, added := 0, {};
      new;
      ZeroBits();
      assert Covered(h, m, k, {}) == {};
    }

    // The k bit positions of `data`, all below m.
    method Locations(data: string) returns (locs: array<nat>)
      requires 0 < m
      ensures fresh(locs) && locs.Length == k
      ensures forall i :: 0 <= i < k ==> locs[i] == Location(h, data, i, m) && locs[i] < m
      ensures exists g: seq<nat> :: |g| == k && Probes(h, data, g) && forall i :: 0 <= i < k ==> locs[i] == g[i] % m
    {
      ghost var g := ProbesExist(h, data, k);
      LocationsAreProbes(h, data, g, m);
      locs := new nat[k];
      for i := 0 to k
        invariant forall j :: 0 <= j < i ==> locs[j] == Location(h, data, j, m)
      {
        locs[i] := Location(h, data, i, m);
      }
    }

    method SetPosition(p: nat, ghost positions: set<nat>)
      requires p < 64 * bits.Length && Holds(BitsOf(bits[..]), positions)
      modifies bits
      ensures Holds(BitsOf(bits[..]), positions + {p})
    {
      ghost var words := BitsOf(bits[..]);
      HoldsSet(words, positions, p);
      var w := SetBit(bits[p / 64], p % 64);
      bits[p / 64] := w;
      assert BitsOf(bits[..]) == words[p / 64 := words[p / 64][p % 64 := true]];
    }

    method TestPosition(p: nat, ghost positions: set<nat>) returns (on: bool)
      requires p < 64 * bits.Length && Holds(BitsOf(bits[..]), positions)
      ensures on <==> p in positions
    {
      assert Bit(BitsOf(bits[..]), p) <==> p in positions;
      on := TestBit(bits[p / 64], p % 64);
    }

    method Add(data: string)
      requires Valid()
      modifies this, bits
      ensures Valid() && added == old(added) + {data}
      ensures count == (old(count) + 1) % WORD
    {
      var locs := Locations(data);
      ghost var ps, was := locs[..], Covered(h, m, k, added);
      CoveredOne(h, m, k, data, ps);
      CoveredUnion(h, m, k, added, {data});
      for j := 0 to k
        invariant locs[..] == ps && added == old(added) && count == old(count)
        invariant Holds(BitsOf(bits[..]), was + Set(ps[..j]))
      {
        ghost var sofar := was + Set(ps[..j]);
        SetPosition(locs[j], sofar);
        assert ps[..j + 1] == ps[..j] + [locs[j]];
        assert was + Set(ps[..j + 1]) == sofar + {locs[j]};
      }
      assert ps[..k] == ps;
      count := (count + 1) % WORD;
      added := added + {data};
    }

    // Exactly when every position of `data` is covered by some inserted element.
    method MayContain(data: string) returns (yes: bool)
      requires Valid()
      ensures yes <==> Positive(h, m, k, added, data)
    {
      var locs := Locations(data);
      ghost var ps := locs[..];
      for j := 0 to k
        invariant Valid() && locs[..] == ps
        invariant forall i :: 0 <= i < j ==> Location(h, data, i, m) in Covered(h, m, k, added)
      {
        assert locs[j] == ps[j];
        var on := TestPosition(locs[j], Covered(h, m, k, added));
        if !on {
          assert Location(h, data, j, m) !in Covered(h, m, k, added);
          return false;
        }
      }
      return true;
    }

    // All filters of the package share their hash functions. A nil filter and one of other parameters
    // are refused; with itself a filter blocks for ever, as it takes its own lock twice; otherwise it
    // becomes, bit for bit, one into which both histories were inserted.
    method Merge(other: BloomFilter?) returns (r: MergeResult)
      requires Valid()
      requires other != null && other != this ==> other.Valid() && other.bits != bits && other.h == h
      modifies this, bits
      ensures Valid()
      ensures r == if other == null || m != other.m || k != other.k then Refused
                   else if other == this then Blocked else Merged
      ensures r.Merged? ==> other.Valid() && added == old(added) + other.added
                            && count == (old(count) + other.count) % WORD
      ensures !r.Merged? ==> added == old(added) && count == old(count) && bits[..] == old(bits[..])
    {
      if other == null || m != other.m || k != other.k {
        return Refused;
      }
      if other == this {
        return Blocked;
      }
      OrInto(other);
      return Merged;
    }

    method OrInto(other: BloomFilter)
      requires Valid() && other.Valid() && other != this && other.bits != bits && other.h == h
      requires m == other.m && k == other.k
      modifies this, bits
      ensures Valid() && other.Valid() && added == old(added) + other.added
      ensures count == (old(count) + other.count) % WORD
    {
      ghost var mine, theirs := bits[..], other.bits[..];
      for i := 0 to bits.Length
        invariant other.bits[..] == theirs && added == old(added) && count == old(count)
        invariant forall j :: 0 <= j < i ==> Bits(bits[j]) == Or(Bits(mine[j]), Bits(theirs[j]))
        invariant forall j :: i <= j < bits.Length ==> bits[j] == mine[j]
      {
        var w := OrWords(bits[i], other.bits[i]);
        bits[i] := w;
      }
      CoveredUnion(h, m, k, added, other.added);
      HoldsOr(BitsOf(mine), BitsOf(theirs), BitsOf(bits[..]), Covered(h, m, k, added), Covered(h, m, k, other.added));
      count := (count + other.count) % WORD;
      added := added + other.added;
    }

    method Clear()
      requires Valid()
      modifies this, bits
      ensures Valid() && added == {} && count == 0
    {
      for i := 0 to bits.Length
        invariant forall j :: 0 <= j < i ==> bits[j] == 0
      {
        bits[i] := 0;
      }
      ZeroBits();
      count, added := 0, {};
      assert Covered(h, m, k, {}) == {};
    }
  }

  // Two filters of one shape are equal word for word if the same elements went into them: a merged
  // filter is bit for bit the one into which both histories were inserted.
  lemma SameHistorySameFilter(a: BloomFilter, b: BloomFilter)
    requires a.Valid() && b.Valid() && a.h == b.h && a.m == b.m && a.k == b.k && a.added == b.added
    ensures a.bits[..] == b.bits[..]
  {
    SameBitsSameWords(BitsOf(a.bits[..]), BitsOf(b.bits[..]), Covered(a.h, a.m, a.k, a.added));
    forall i | 0 <= i < a.bits.Length ensures a.bits[i] == b.bits[i] { BitsDetermine(a.bits[i], b.bits[i]); }
  }

  // New(bits, k): the size is rounded up to whole words; too few bits or no hashes is an error.
  method NewFilter(h: Hashes, bits: nat, k: nat) returns (b: BloomFilter?)
    ensures b == null <==> bits < 64 || k == 0
    ensures b != null ==> b.Valid() && fresh(b) && fresh(b.bits) && b.h == h && b.k == k && b.added == {}
                          && bits <= b.m < bits + 64
  {
    if bits < 64 || k == 0 {
      return null;
    }
    b := new BloomFilter(h, (bits + 63) / 64, k);
  }
}
