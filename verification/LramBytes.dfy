/** The banked RAM as an array of bytes: what each byte holds after any run of bus operations. */
module LramBytes {
  import opened Words
  import opened Lram

  // Byte i of a word, least significant first, and line i of the byte selects.
  function ByteOf(w: Word, i: nat): UInt8
    requires i < 4
  {
    if i == 0 then w.b0 else if i == 1 then w.b1 else if i == 2 then w.b2 else w.b3
  }

  predicate Line(sel: Select, i: nat)
    requires i < 4
  {
    if i == 0 then sel.s0 else if i == 1 then sel.s1 else if i == 2 then sel.s2 else sel.s3
  }

  // What byte n of a byte array holds after some operations: byte i of the data of the last write to
  // word a with select line i on, for n = 4 * a + i, or else what it held before.
  function ByteAfter(before: UInt8, ops: seq<Op>, n: nat): UInt8
  {
    if ops == [] then before
    else
      var last := ops[|ops| - 1];
      if last.Access? && last.request.we && last.request.adr == n / 4 && Line(last.request.sel, n % 4)
      then ByteOf(last.request.data, n % 4)
      else ByteAfter(before, ops[..|ops| - 1], n)
  }

  // Byte n of the RAM.
  ghost function ByteAt(g: Geometry, r: Ram, n: nat): UInt8
    requires Shaped(g, r) && n < 4 * g.Words()
  {
    ByteOf(Flat(g, r)[n / 4], n % 4)
  }

  // Addresses of the RAM's own words; higher address bits would not be looked at.
  predicate Addressed(g: Geometry, op: Op) { op.Access? ==> op.request.adr < g.Words() }

  // One operation changes the bytes it writes and no others.
  lemma OpBytes(g: Geometry, r: Ram, op: Op, n: nat)
    requires Shaped(g, r) && !r.ack && WellFormed(op) && Addressed(g, op) && n < 4 * g.Words()
    ensures ByteAt(g, Perform(g, r, op).0, n) == ByteAfter(ByteAt(g, r, n), [op], n)
  {
    OpRefinesFlat(g, r, op);
    if op.Access? {
      FlatIndexIdentity(g, op.request.adr);
    }
    assert [op][..0] == [];
  }

  lemma {:induction false} PerformedAppend(g: Geometry, r: Ram, ops: seq<Op>, op: Op)
    requires Shaped(g, r)
    ensures Performed(g, r, ops + [op]) == Perform(g, Performed(g, r, ops), op).0
    decreases |ops|
  {
    if ops == [] {
      assert [op][1..] == [];
    } else {
      assert (ops + [op])[1..] == ops[1..] + [op];
      PerformedAppend(g, Perform(g, r, ops[0]).0, ops[1..], op);
    }
  }

  // After any run of operations, under any clock gating, every byte of the RAM is that of the array.
  lemma {:induction false} RunBytes(g: Geometry, r: Ram, ops: seq<Op>, n: nat)
    requires Shaped(g, r) && !r.ack && n < 4 * g.Words()
    requires forall op | op in ops :: WellFormed(op) && Addressed(g, op)
    ensures ByteAt(g, Performed(g, r, ops), n) == ByteAfter(ByteAt(g, r, n), ops, n)
    decreases |ops|
  {
    if ops != [] {
      var earlier, last := ops[..|ops| - 1], ops[|ops| - 1];
      assert ops == earlier + [last];
      RunBytes(g, r, earlier, n);
      PerformedAck(g, r, earlier);
      PerformedAppend(g, r, earlier, last);
      OpBytes(g, Performed(g, r, earlier), last, n);
      OneByteAfter(ByteAt(g, r, n), earlier, last, n);
    }
  }

  lemma OneByteAfter(before: UInt8, earlier: seq<Op>, last: Op, n: nat)
    ensures ByteAfter(ByteAfter(before, earlier, n), [last], n) == ByteAfter(before, earlier + [last], n)
  {
    assert (earlier + [last])[..|earlier|] == earlier;
    assert [last][..0] == [];
  }

  // And a read that fetches its word returns its four bytes.
  lemma ReadBytes(g: Geometry, r: Ram, ops: seq<Op>, read: Op, i: nat)
    requires Shaped(g, r) && !r.ack && i < 4
    requires forall op | op in ops :: WellFormed(op) && Addressed(g, op)
    requires read.Access? && !read.request.we && WellFormed(read) && Addressed(g, read) && Fetches(read)
    ensures var n := 4 * read.request.adr + i;
            ByteOf(Perform(g, Performed(g, r, ops), read).2, i) == ByteAfter(ByteAt(g, r, n), ops, n)
  {
    PerformedAck(g, r, ops);
    ReadByte(g, Performed(g, r, ops), read, i);
    RunBytes(g, r, ops, 4 * read.request.adr + i);
  }

  lemma ReadByte(g: Geometry, r: Ram, read: Op, i: nat)
    requires Shaped(g, r) && !r.ack && i < 4
    requires read.Access? && !read.request.we && WellFormed(read) && Addressed(g, read) && Fetches(read)
    ensures ByteOf(Perform(g, r, read).2, i) == ByteAt(g, r, 4 * read.request.adr + i)
  {
    OpRefinesFlat(g, r, read);
    FlatIndexIdentity(g, read.request.adr);
    DivModUnique(4 * read.request.adr + i, 4, read.request.adr, i);
  }

  // Behind the last bank, in the addresses that a number of banks other than a power of two leaves
  // over, a read returns zero.
  lemma UnmappedReads(g: Geometry, r: Ram, read: Op)
    requires Shaped(g, r) && !r.ack && read.Access? && !read.request.we && WellFormed(read)
    requires g.Words() <= read.request.adr < g.Selects() * 0x4000
    ensures Perform(g, r, read).2 == Word(0, 0, 0, 0)
  {
    Decode(g, read.request.adr);
    DivModUnique(read.request.adr, g.Selects() * ROWS, 0, read.request.adr);
  }
}
