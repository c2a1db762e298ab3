/**
 * A contiguous region of stack bytes, the little-endian words read from it, and
 * the processor steps that lay a chain of call frames down in it.
 */
module StackMemory {
  import opened Wrappers
  import opened FixedWidth

  function Decode(bytes: seq<int>): int {
    if bytes == [] then 0 else bytes[0] + 256 * Decode(bytes[1..])
  }

  function Encode(v: nat, size: nat): (bytes: seq<int>)
    ensures |bytes| == size
    ensures forall k :: 0 <= k < size ==> 0 <= bytes[k] < 256
  {
    if size == 0 then [] else [v % 256] + Encode(v / 256, size - 1)
  }

  /** One more than the largest word of the given size. */
  function WordLimit(size: nat): (n: nat)
    ensures n >= 1
  {
    if size == 0 then 1 else 256 * WordLimit(size - 1)
  }

  lemma {:induction false} DecodeAfterEncode(v: nat, size: nat)
    requires v < WordLimit(size)
    ensures Decode(Encode(v, size)) == v
  {
    if size > 0 {
      DecodeAfterEncode(v / 256, size - 1);
      assert Encode(v, size)[1..] == Encode(v / 256, size - 1);
    }
  }

  lemma WordLimits()
    ensures WordLimit(4) == TWO_32 && WordLimit(8) == TWO_64
  {
    assert WordLimit(2) == 0x1_0000;
    assert WordLimit(4) == 256 * (256 * WordLimit(2));
    assert WordLimit(6) == 256 * (256 * WordLimit(4));
    assert WordLimit(8) == 256 * (256 * WordLimit(6));
  }

  datatype Region = Region(base: nat, bytes: seq<int>) {
    ghost predicate Valid() {
      && base + |bytes| < TWO_64
      && forall k :: 0 <= k < |bytes| ==> 0 <= bytes[k] < 256
    }

    /** Reads a word; fails outside the region and at the very end of the address space. */
    function Read(address: nat, size: nat): Option<int> {
      if address < base || address + size > TWO_64 - 1 || address + size > base + |bytes| then None
      else Some(Decode(bytes[address - base..address - base + size]))
    }

    predicate Contains(address: nat, size: nat) {
      base <= address && address + size <= base + |bytes|
    }

    function Write(address: nat, v: nat, size: nat): (r: Region)
      requires Contains(address, size)
      ensures r.base == base && |r.bytes| == |bytes|
    {
      var at := address - base;
      Region(base, bytes[..at] + Encode(v, size) + bytes[at + size..])
    }
  }

  lemma WriteKeepsValid(r: Region, address: nat, v: nat, size: nat)
    requires r.Valid() && r.Contains(address, size)
    ensures r.Write(address, v, size).Valid()
  {
  }

  lemma ReadBack(r: Region, address: nat, v: nat, size: nat)
    requires r.Valid() && r.Contains(address, size) && v < WordLimit(size)
    ensures r.Write(address, v, size).Read(address, size) == Some(v)
  {
    DecodeAfterEncode(v, size);
    var at := address - r.base;
    assert r.Write(address, v, size).bytes[at..at + size] == Encode(v, size);
  }

  lemma SliceAbove(s: seq<int>, at: nat, written: seq<int>, i: nat, j: nat)
    requires at + |written| <= i <= j <= |s|
    ensures |s[..at] + written + s[at + |written|..]| == |s|
    ensures (s[..at] + written + s[at + |written|..])[i..j] == s[i..j]
  {
    var front, back := s[..at] + written, s[at + |written|..];
    assert forall k :: i <= k < j ==> (front + back)[k] == back[k - |front|] == s[k];
  }

  lemma ReadAbove(r: Region, address: nat, v: nat, size: nat, other: nat, otherSize: nat)
    requires r.Valid() && r.Contains(address, size) && other >= address + size
    ensures r.Write(address, v, size).Read(other, otherSize) == r.Read(other, otherSize)
  {
    hide Encode, Decode;
    var at := other - r.base;
    if at + otherSize <= |r.bytes| {
      SliceAbove(r.bytes, address - r.base, Encode(v, size), at, at + otherSize);
    }
  }

  /** A word can be read exactly if all of it is in the region, and it does not end with the last address. */
  lemma ReadableIff(r: Region, address: nat, size: nat)
    ensures r.Read(address, size).Some? <==>
      r.base <= address && address + size <= r.base + |r.bytes| && address + size < TWO_64
  {
  }

  /** Byte k of a word that is read counts 256 to the k. */
  lemma WordIsLittleEndian(r: Region, address: nat, size: nat, k: nat)
    requires r.Valid() && r.Read(address, size).Some? && k < size
    ensures r.bytes[address - r.base + k] == r.Read(address, size).value / WordLimit(k) % 256
    ensures 0 <= r.Read(address, size).value < WordLimit(size)
  {
    hide Decode, WordLimit;
    var word := r.bytes[address - r.base..address - r.base + size];
    DecodedByte(word, k);
    DecodeBound(word);
  }

  lemma {:induction false} DecodeBound(bytes: seq<int>)
    requires forall k :: 0 <= k < |bytes| ==> 0 <= bytes[k] < 256
    ensures 0 <= Decode(bytes) < WordLimit(|bytes|)
  {
    if bytes != [] {
      DecodeBound(bytes[1..]);
    }
  }

  lemma {:induction false} DecodedByte(bytes: seq<int>, k: nat)
    requires k < |bytes| && forall i :: 0 <= i < |bytes| ==> 0 <= bytes[i] < 256
    ensures bytes[k] == Decode(bytes) / WordLimit(k) % 256
    decreases k
  {
    var rest := Decode(bytes[1..]);
    DecodeBound(bytes[1..]);
    if k == 0 {
      LowByte(bytes[0], rest);
    } else {
      DecodedByte(bytes[1..], k - 1);
      HighBytes(bytes[0], rest, WordLimit(k - 1));
    }
  }

  lemma LowByte(low: int, rest: nat)
    requires 0 <= low < 256
    ensures (low + 256 * rest) % 256 == low
  {
  }

  lemma HighBytes(low: int, rest: nat, p: nat)
    requires 0 <= low < 256 && p >= 1
    ensures (low + 256 * rest) / (256 * p) == rest / p
  {
    var q, m := rest / p, rest % p;
    assert rest == p * q + m;
    assert low + 256 * rest == (256 * p) * q + (low + 256 * m);
    assert 0 <= low + 256 * m < 256 * p;
    QuotientIs(low + 256 * rest, 256 * p, q, low + 256 * m);
  }

  lemma QuotientIs(n: int, d: nat, q: int, r: int)
    requires d >= 1 && n == d * q + r && 0 <= r < d
    ensures n / d == q
  {
    DivisionLaw(n, d);
    SmallMultiple(d, n / d, q, r - n % d);
  }

  lemma DivisionLaw(n: int, d: nat)
    requires d >= 1
    ensures n == d * (n / d) + n % d && 0 <= n % d < d
  {
  }

  lemma SmallMultiple(d: int, a: int, b: int, difference: int)
    requires d * a - d * b == difference && -d < difference < d
    ensures a == b
  {
    Factored(d, a, b);
    AtLeast(d, a - b);
  }

  lemma Factored(d: int, a: int, b: int)
    ensures d * a - d * b == d * (a - b)
  {
  }

  lemma AtLeast(d: int, e: int)
    requires d >= 0
    ensures e >= 1 ==> d * e >= d
    ensures e <= -1 ==> d * e <= -d
  {
  }

  // ----- Calls -----

  datatype Machine = Machine(memory: Region, sp: nat, fp: nat)

  /** A CALL with the function's prologue: the address it returns to and the space its locals take. */
  datatype CallSite = CallSite(returnAddress: nat, locals: nat)

  predicate CanCall(m: Machine, c: CallSite, word: nat) {
    && m.memory.base + 2 * word + c.locals <= m.sp <= m.memory.base + |m.memory.bytes|
    && c.returnAddress < WordLimit(word)
    && m.fp < WordLimit(word)
  }

  /** Push the return address, push the frame pointer, point it at the saved one, reserve the locals. */
  function AfterCall(m: Machine, c: CallSite, word: nat): Machine
    requires CanCall(m, c, word)
  {
    var pushedReturn := m.memory.Write(m.sp - word, c.returnAddress, word);
    var pushedFrame := pushedReturn.Write(m.sp - 2 * word, m.fp, word);
    Machine(pushedFrame, m.sp - 2 * word - c.locals, m.sp - 2 * word)
  }

  /** The machine states of a run of nested calls, the innermost last. */
  ghost predicate IsRun(states: seq<Machine>, calls: seq<CallSite>, word: nat) {
    && |states| == |calls| + 1
    && states[0].memory.Valid()
    && forall k :: 0 <= k < |calls| ==> CanCall(states[k], calls[k], word) && states[k + 1] == AfterCall(states[k], calls[k], word)
  }

  lemma CallPushes(m: Machine, c: CallSite, word: nat)
    requires CanCall(m, c, word) && m.memory.Valid()
    ensures var after := AfterCall(m, c, word);
            && after.memory.Valid()
            && after.memory.Read(after.fp + word, word) == Some(c.returnAddress)
            && after.memory.Read(after.fp, word) == Some(m.fp)
  {
    hide Region.Read, Region.Write, Region.Valid, WordLimit;
    var pushed := m.memory.Write(m.sp - word, c.returnAddress, word);
    WriteKeepsValid(m.memory, m.sp - word, c.returnAddress, word);
    WriteKeepsValid(pushed, m.sp - 2 * word, m.fp, word);
    ReadBack(m.memory, m.sp - word, c.returnAddress, word);
    ReadAbove(pushed, m.sp - 2 * word, m.fp, word, m.sp - word, word);
    ReadBack(pushed, m.sp - 2 * word, m.fp, word);
  }

  lemma CallKeeps(m: Machine, c: CallSite, word: nat, address: nat)
    requires CanCall(m, c, word) && m.memory.Valid() && address >= m.sp
    ensures AfterCall(m, c, word).memory.Read(address, word) == m.memory.Read(address, word)
  {
    hide Region.Read, Region.Write, Region.Valid, WordLimit;
    var pushed := m.memory.Write(m.sp - word, c.returnAddress, word);
    WriteKeepsValid(m.memory, m.sp - word, c.returnAddress, word);
    ReadAbove(m.memory, m.sp - word, c.returnAddress, word, address, word);
    ReadAbove(pushed, m.sp - 2 * word, m.fp, word, address, word);
  }

  /** Deeper calls leave what call k pushed where it is, and only move the stack pointer down. */
  lemma {:induction false} SavedPair(states: seq<Machine>, calls: seq<CallSite>, word: nat, k: nat, n: nat)
    requires IsRun(states, calls, word) && k < n <= |calls|
    ensures states[k].memory.Valid() && states[n].memory.Valid()
    ensures var fp := states[k + 1].fp;
            && states[n].sp <= fp
            && states[n].memory.Read(fp + word, word) == Some(calls[k].returnAddress)
            && states[n].memory.Read(fp, word) == Some(states[k].fp)
    decreases n
  {
    hide Region.Read, Region.Write, Region.Valid, WordLimit;
    RunIsValid(states, calls, word, k);
    if n == k + 1 {
      CallPushes(states[k], calls[k], word);
    } else {
      SavedPair(states, calls, word, k, n - 1);
      CallPushes(states[n - 1], calls[n - 1], word);
      CallKeeps(states[n - 1], calls[n - 1], word, states[k + 1].fp);
      CallKeeps(states[n - 1], calls[n - 1], word, states[k + 1].fp + word);
    }
  }

  lemma {:induction false} RunIsValid(states: seq<Machine>, calls: seq<CallSite>, word: nat, k: nat)
    requires IsRun(states, calls, word) && k <= |calls|
    ensures states[k].memory.Valid()
    decreases k
  {
    if k > 0 {
      RunIsValid(states, calls, word, k - 1);
      CallPushes(states[k - 1], calls[k - 1], word);
    }
  }
}
