/** The bump arena for command payloads: one buffer that grows in size and in alignment, is written
    front to back, and is reset as a whole.
  */
module CommandArena {
  type Byte = x: nat | x < 256

  const WORD_ALIGN: nat := 8
  const SMALLEST: nat := 4096

  predicate IsPow2(n: nat)
    decreases n
  {
    n == 1 || (n > 1 && n % 2 == 0 && IsPow2(n / 2))
  }

  ghost predicate Multiple(x: nat, a: nat) {
    exists q: nat {:trigger q * a} :: x == q * a
  }

  lemma ProductIsMultiple(q: nat, a: nat)
    ensures Multiple(q * a, a)
  {
  }

  lemma SumIsMultiple(x: nat, y: nat, a: nat)
    requires Multiple(x, a) && Multiple(y, a)
    ensures Multiple(x + y, a)
  {
    var p: nat :| x == p * a;
    var q: nat :| y == q * a;
    assert (p + q) * a == x + y;
  }

  lemma MultipleOfMultiple(x: nat, b: nat, a: nat)
    requires Multiple(x, b) && Multiple(b, a)
    ensures Multiple(x, a)
  {
    var p: nat :| x == p * b;
    var q: nat :| b == q * a;
    assert (p * q) * a == p * (q * a);
  }

  lemma {:induction false} SmallerDivides(a: nat, b: nat)
    requires IsPow2(a) && IsPow2(b) && a <= b
    ensures Multiple(b, a)
    decreases b
  {
    if a <= b / 2 {
      SmallerDivides(a, b / 2);
      assert b == 2 * (b / 2);
      MultipleOfMultiple(b, b / 2, a);
    } else {
      HalfIsLargest(a, b);
      assert b == 1 * a;
    }
  }

  lemma {:induction false} HalfIsLargest(a: nat, b: nat)
    requires IsPow2(a) && IsPow2(b) && b / 2 < a <= b
    ensures a == b
    decreases b
  {
    if b > 1 && a > 1 {
      HalfIsLargest(a / 2, b / 2);
    }
  }

  // The first multiple of the alignment at or after the cursor.
  function AlignUp(cursor: nat, align: nat): nat
    requires align > 0
  {
    (cursor + align - 1) / align * align
  }

  lemma QuotientAndRest(x: nat, a: nat)
    requires a > 0
    ensures x - a < x / a * a <= x
  {
  }

  lemma AlignUpIsNext(cursor: nat, align: nat)
    requires align > 0
    ensures cursor <= AlignUp(cursor, align) < cursor + align && Multiple(AlignUp(cursor, align), align)
  {
    QuotientAndRest(cursor + align - 1, align);
    ProductIsMultiple((cursor + align - 1) / align, align);
  }

  // ---- What the arena holds ----------------------------------------------------------------------------

  datatype Payload = Payload(offset: nat, align: nat, bytes: seq<Byte>)

  /** A payload lies below the cursor, at a multiple of its alignment, with its own bytes; one of no bytes
      takes no place. */
  ghost predicate Stored(mem: seq<Byte>, cursor: nat, align: nat, p: Payload) {
    && IsPow2(p.align) && p.align <= align
    && (p.bytes == [] ==> p.offset == 0)
    && (p.bytes != [] ==>
          p.offset + |p.bytes| <= cursor <= |mem| && Multiple(p.offset, p.align)
          && mem[p.offset..p.offset + |p.bytes|] == p.bytes)
  }

  ghost predicate Before(p: Payload, q: Payload) {
    p.bytes != [] && q.bytes != [] ==> p.offset + |p.bytes| <= q.offset
  }

  ghost predicate ArenaRight(mem: seq<Byte>, base: nat, cursor: nat, align: nat, ps: seq<Payload>) {
    && cursor <= |mem| && IsPow2(align)
    && (mem != [] ==> base > 0 && Multiple(base, align))
    && (forall i :: 0 <= i < |ps| ==> Stored(mem, cursor, align, ps[i]))
    && (forall i, j :: 0 <= i < j < |ps| ==> Before(ps[i], ps[j]))
  }

  // Where a payload's bytes are; an arena that never allocated answers with its alignment.
  function Address(mem: seq<Byte>, base: nat, align: nat, offset: nat): nat {
    if mem == [] then align else base + offset
  }

  /** Every payload sits at an address that suits its type. */
  lemma PayloadsAreAligned(mem: seq<Byte>, base: nat, cursor: nat, align: nat, ps: seq<Payload>, i: nat)
    requires ArenaRight(mem, base, cursor, align, ps) && i < |ps|
    ensures Address(mem, base, align, ps[i].offset) > 0
    ensures Multiple(Address(mem, base, align, ps[i].offset), ps[i].align)
  {
    var p := ps[i];
    assert Stored(mem, cursor, align, p);
    SmallerDivides(p.align, align);
    if mem != [] {
      MultipleOfMultiple(base, align, p.align);
      if p.bytes == [] { ProductIsMultiple(0, p.align); }
      SumIsMultiple(base, p.offset, p.align);
    }
  }

  /** No two payloads share a byte, and each is within the buffer. */
  lemma PayloadsAreSeparate(mem: seq<Byte>, base: nat, cursor: nat, align: nat,
                            ps: seq<Payload>, i: nat, j: nat, at: nat)
    requires ArenaRight(mem, base, cursor, align, ps) && i < |ps| && j < |ps| && i != j
    requires ps[i].offset <= at < ps[i].offset + |ps[i].bytes|
    ensures at < |mem| && mem[at] == ps[i].bytes[at - ps[i].offset]
    ensures !(ps[j].offset <= at < ps[j].offset + |ps[j].bytes|)
  {
    assert Stored(mem, cursor, align, ps[i]) && Stored(mem, cursor, align, ps[j]);
    assert mem[ps[i].offset..ps[i].offset + |ps[i].bytes|][at - ps[i].offset] == ps[i].bytes[at - ps[i].offset];
    if i < j {
      assert Before(ps[i], ps[j]);
    } else {
      assert Before(ps[j], ps[i]);
    }
  }

  lemma StoredSurvives(mem: seq<Byte>, cursor: nat, align: nat, mem': seq<Byte>, cursor': nat, align': nat, p: Payload)
    requires Stored(mem, cursor, align, p) && cursor <= |mem|
    requires cursor <= cursor' <= |mem'| && align <= align' && mem'[..cursor] == mem[..cursor]
    ensures Stored(mem', cursor', align', p)
  {
    if p.bytes != [] {
      var lo, hi := p.offset, p.offset + |p.bytes|;
      assert mem'[lo..hi] == mem'[..cursor][lo..hi];
      assert mem[lo..hi] == mem[..cursor][lo..hi];
    }
  }

  /** Growth in size or alignment, wherever the new buffer lies, keeps every payload. */
  lemma GrowthKeepsArena(mem: seq<Byte>, base: nat, cursor: nat, align: nat, ps: seq<Payload>,
                         mem': seq<Byte>, base': nat, align': nat)
    requires ArenaRight(mem, base, cursor, align, ps)
    requires cursor <= |mem'| && mem'[..cursor] == mem[..cursor] && align <= align' && IsPow2(align')
    requires base' > 0 && Multiple(base', align')
    ensures ArenaRight(mem', base', cursor, align', ps)
  {
    forall i | 0 <= i < |ps| ensures Stored(mem', cursor, align', ps[i]) {
      StoredSurvives(mem, cursor, align, mem', cursor, align', ps[i]);
    }
  }

  /** A payload without bytes is stored nowhere, as soon as the base suits its alignment. */
  lemma EmptyPayloadStored(mem: seq<Byte>, base: nat, cursor: nat, align: nat, ps: seq<Payload>, p: Payload)
    requires ArenaRight(mem, base, cursor, align, ps)
    requires p.bytes == [] && p.offset == 0 && IsPow2(p.align) && p.align <= align
    ensures ArenaRight(mem, base, cursor, align, ps + [p])
  {
    var all := ps + [p];
    forall i | 0 <= i < |all| ensures Stored(mem, cursor, align, all[i]) {
      assert i < |ps| ==> all[i] == ps[i];
    }
    forall i, j | 0 <= i < j < |all| ensures Before(all[i], all[j]) {
      if j < |ps| { assert Before(ps[i], ps[j]); }
    }
  }

  /** Writing a payload at the aligned cursor keeps the ones before it. */
  lemma PlacedPayloadStored(mem: seq<Byte>, base: nat, cursor: nat, align: nat, ps: seq<Payload>,
                            mem': seq<Byte>, p: Payload)
    requires ArenaRight(mem, base, cursor, align, ps) && |mem'| == |mem|
    requires p.bytes != [] && IsPow2(p.align) && p.align <= align && p.offset == AlignUp(cursor, p.align)
    requires p.offset + |p.bytes| <= |mem|
    requires cursor <= p.offset && mem'[..cursor] == mem[..cursor]
    requires mem'[p.offset..p.offset + |p.bytes|] == p.bytes
    ensures ArenaRight(mem', base, p.offset + |p.bytes|, align, ps + [p])
  {
    var all, end := ps + [p], p.offset + |p.bytes|;
    AlignUpIsNext(cursor, p.align);
    forall i | 0 <= i < |all| ensures Stored(mem', end, align, all[i]) {
      if i < |ps| { StoredSurvives(mem, cursor, align, mem', end, align, ps[i]); }
    }
    forall i, j | 0 <= i < j < |all| ensures Before(all[i], all[j]) {
      if j < |ps| { assert Before(ps[i], ps[j]); } else { assert Stored(mem, cursor, align, ps[i]); }
    }
  }

  // ---- In place ------------------------------------------------------------------------------------------

  function Larger(a: nat, b: nat): nat {
    if a > b then a else b
  }

  class CommandArena {
    var data: array?<Byte>
    var cursor: nat
    var align: nat
    // Where the system allocator put the buffer, and what has been stored since the last reset.
    ghost var base: nat
    ghost var payloads: seq<Payload>

    ghost function Memory(): seq<Byte>
      reads this, data
    {
      if data == null then [] else data[..]
    }

    ghost predicate Valid()
      reads this, data
    {
      ArenaRight(Memory(), base, cursor, align, payloads)
    }

    constructor ()
      ensures Valid() && payloads == [] && data == null
    {
      data, cursor, align := null, 0, WORD_ALIGN;
      base, payloads := 0, [];
      assert IsPow2(8) by { assert IsPow2(1) && IsPow2(2) && IsPow2(4); }
    }

    function Capacity(): nat
      reads this, data
    {
      if data == null then 0 else data.Length
    }

    method CopyTo(newData: array<Byte>)
      requires data != null && newData != data && cursor <= newData.Length && cursor <= data.Length
      modifies newData
      ensures newData[..cursor] == data[..cursor]
    {
      for i := 0 to cursor
        invariant newData[..i] == data[..i]
      {
        newData[i] := data[i];
        assert newData[..i + 1] == newData[..i] + [newData[i]] && data[..i + 1] == data[..i] + [data[i]];
      }
    }

    /** Moves everything to a new buffer, at an address of the system allocator's choosing. */
    method Reallocate(newCap: nat, newAlign: nat, ghost at: nat)
      requires Valid() && newAlign >= align && IsPow2(newAlign) && at > 0 && Multiple(at, newAlign)
      modifies this
      ensures Valid() && payloads == old(payloads) && cursor == old(cursor)
      ensures data != null && fresh(data) && Capacity() == Larger(Larger(newCap, cursor), 1) && align == newAlign
    {
      ghost var mem := Memory();
      var size := Larger(Larger(newCap, cursor), 1);
      var newData := new Byte[size];
      if data != null { CopyTo(newData); }
      assert newData[..][..cursor] == mem[..cursor];
      GrowthKeepsArena(mem, base, cursor, align, payloads, newData[..], at, newAlign);
      data, align, base := newData, newAlign, at;
    }

    // Makes room for `size` bytes at the aligned cursor, and a base that suits the alignment.
    method MakeRoom(size: nat, payloadAlign: nat, ghost first: nat, ghost second: nat) returns (start: nat)
      requires Valid() && IsPow2(payloadAlign)
      requires first > 0 && Multiple(first, payloadAlign)
      requires second > 0 && Multiple(second, Larger(align, payloadAlign))
      modifies this
      ensures Valid() && payloads == old(payloads) && cursor == old(cursor)
      ensures align == Larger(old(align), payloadAlign)
      ensures start == if size == 0 then 0 else AlignUp(cursor, payloadAlign)
      ensures size > 0 ==> data != null && start + size <= data.Length
      ensures data == old(data) || (data != null && fresh(data))
    {
      if payloadAlign > align {
        Reallocate(Capacity(), payloadAlign, first);
      }
      if size == 0 { return 0; }
      start := AlignUp(cursor, payloadAlign);
      AlignUpIsNext(cursor, payloadAlign);
      var end := start + size;
      if end > Capacity() {
        Reallocate(Larger(Larger(end, Capacity() * 2), SMALLEST), align, second);
      }
    }

    /** Stores a payload and returns its offset; everything stored before keeps its place and contents. */
    method Alloc(bytes: seq<Byte>, payloadAlign: nat, ghost first: nat, ghost second: nat) returns (offset: nat)
      requires Valid() && IsPow2(payloadAlign)
      requires first > 0 && Multiple(first, payloadAlign)
      requires second > 0 && Multiple(second, Larger(align, payloadAlign))
      modifies this, data
      ensures Valid() && payloads == old(payloads) + [Payload(offset, payloadAlign, bytes)]
      ensures offset == if bytes == [] then 0 else AlignUp(old(cursor), payloadAlign)
      ensures cursor == if bytes == [] then old(cursor) else offset + |bytes|
      ensures data == old(data) || (data != null && fresh(data))
    {
      offset := MakeRoom(|bytes|, payloadAlign, first, second);
      ghost var p := Payload(offset, payloadAlign, bytes);
      if bytes == [] {
        EmptyPayloadStored(Memory(), base, cursor, align, payloads, p);
        payloads := payloads + [p];
        return;
      }
      AlignUpIsNext(cursor, payloadAlign);
      ghost var mem := data[..];
      WriteAt(offset, bytes);
      PlacedPayloadStored(mem, base, cursor, align, payloads, data[..], p);
      cursor := offset + |bytes|;
      payloads := payloads + [p];
    }

    method WriteAt(offset: nat, bytes: seq<Byte>)
      requires data != null && offset + |bytes| <= data.Length
      modifies data
      ensures data[..offset] == old(data[..offset]) && data[offset..offset + |bytes|] == bytes
      ensures data[offset + |bytes|..] == old(data[offset + |bytes|..])
    {
      for i := 0 to |bytes|
        invariant data[..offset] == old(data[..offset]) && data[offset..offset + i] == bytes[..i]
        invariant data[offset + i..] == old(data[offset + i..])
      {
        data[offset + i] := bytes[i];
        assert data[offset..offset + i + 1] == data[offset..offset + i] + [bytes[i]];
        assert bytes[..i + 1] == bytes[..i] + [bytes[i]];
      }
      assert bytes[..|bytes|] == bytes;
    }

    /** What was stored is what is read, however often the buffer has moved since. */
    method Read(offset: nat, size: nat, ghost i: nat) returns (bytes: seq<Byte>)
      requires Valid() && i < |payloads| && payloads[i].offset == offset && |payloads[i].bytes| == size
      ensures bytes == payloads[i].bytes
    {
      assert Stored(Memory(), cursor, align, payloads[i]);
      bytes := if size == 0 then [] else data[offset..offset + size];
    }

    method Reset()
      requires Valid()
      modifies this
      ensures Valid() && payloads == [] && data == old(data) && align == old(align)
    {
      cursor := 0;
      payloads := [];
    }
  }
}
