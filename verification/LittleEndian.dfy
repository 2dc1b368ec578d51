/** Little-endian numbers, and records of numbers laid out one after the other without gaps. */
module LittleEndian {
  import opened Basics

  function Pow256(k: nat): nat {
    if k == 0 then 1 else 256 * Pow256(k - 1)
  }

  /** The little-endian number stored in these bytes. */
  function Little(b: seq<byte>): nat {
    if b == [] then 0 else b[0] + 256 * Little(b[1..])
  }

  function LittleBytes(v: nat, k: nat): (b: seq<byte>)
    ensures |b| == k
  {
    if k == 0 then [] else [v % 256] + LittleBytes(v / 256, k - 1)
  }

  lemma {:induction false} LittleRoundTrip(v: nat, k: nat)
    requires v < Pow256(k)
    ensures Little(LittleBytes(v, k)) == v
    decreases k
  {
    if k > 0 {
      LittleRoundTrip(v / 256, k - 1);
      assert LittleBytes(v, k)[1..] == LittleBytes(v / 256, k - 1);
    }
  }

  lemma {:induction false} BytesRoundTrip(b: seq<byte>)
    ensures Little(b) < Pow256(|b|) && LittleBytes(Little(b), |b|) == b
  {
    if b != [] {
      BytesRoundTrip(b[1..]);
    }
  }

  lemma Powers()
    ensures Pow256(1) == 0x100 && Pow256(2) == 0x1_0000 && Pow256(4) == 0x1_0000_0000 && Pow256(8) == WORD
  {
    assert Pow256(3) == 0x100_0000 && Pow256(5) == 0x100_0000_0000 && Pow256(6) == 0x1_0000_0000_0000;
    assert Pow256(7) == 0x100_0000_0000_0000;
  }

  lemma WordRoundTrip(v: nat)
    requires v < WORD
    ensures Little(LittleBytes(v, 8)) == v
  {
    Powers();
    LittleRoundTrip(v, 8);
  }

  // ---- Records

  datatype Field = Field(value: nat, width: nat)

  /** Where field i starts. */
  function Offset(fields: seq<Field>, i: nat): nat
    requires i <= |fields|
  {
    if i == 0 then 0 else Offset(fields, i - 1) + fields[i - 1].width
  }

  /** The first n fields as bytes. */
  function Laid(fields: seq<Field>, n: nat): (b: seq<byte>)
    requires n <= |fields|
    ensures |b| == Offset(fields, n)
  {
    if n == 0 then [] else Laid(fields, n - 1) + LittleBytes(fields[n - 1].value, fields[n - 1].width)
  }

  function Record(fields: seq<Field>): (b: seq<byte>)
    ensures |b| == Offset(fields, |fields|)
  {
    Laid(fields, |fields|)
  }

  predicate Fit(fields: seq<Field>) {
    forall i | 0 <= i < |fields| :: fields[i].value < Pow256(fields[i].width)
  }

  lemma {:induction false} OffsetsGrow(fields: seq<Field>, i: nat, n: nat)
    requires i <= n <= |fields|
    ensures Offset(fields, i) <= Offset(fields, n)
    decreases n
  {
    if i < n {
      OffsetsGrow(fields, i, n - 1);
    }
  }

  /** The bytes that stand where field i would stand. */
  function Part(b: seq<byte>, fields: seq<Field>, i: nat): (part: seq<byte>)
    requires i < |fields| && |b| == Offset(fields, |fields|)
    ensures |part| == fields[i].width
  {
    OffsetsGrow(fields, i + 1, |fields|);
    b[Offset(fields, i)..Offset(fields, i + 1)]
  }

  lemma {:induction false} LaidPart(fields: seq<Field>, n: nat, i: nat)
    requires i < n <= |fields|
    ensures Offset(fields, i + 1) <= Offset(fields, n)
    ensures Laid(fields, n)[Offset(fields, i)..Offset(fields, i + 1)] == LittleBytes(fields[i].value, fields[i].width)
    decreases n
  {
    hide LittleBytes;
    OffsetsGrow(fields, i + 1, n);
    if i < n - 1 {
      LaidPart(fields, n - 1, i);
    }
  }

  lemma {:induction false} LaidOver(b: seq<byte>, fields: seq<Field>, n: nat)
    requires n <= |fields| && |b| == Offset(fields, |fields|)
    requires forall i: nat | i < n :: Part(b, fields, i) == LittleBytes(fields[i].value, fields[i].width)
    ensures Offset(fields, n) <= |b| && Laid(fields, n) == b[..Offset(fields, n)]
  {
    hide LittleBytes, Part;
    OffsetsGrow(fields, n, |fields|);
    if n > 0 {
      LaidOver(b, fields, n - 1);
      PartIs(b, fields, n - 1);
      Joined(b, Offset(fields, n - 1), Offset(fields, n));
    }
  }

  lemma PartIs(b: seq<byte>, fields: seq<Field>, i: nat)
    requires i < |fields| && |b| == Offset(fields, |fields|)
    ensures Offset(fields, i) <= Offset(fields, i + 1) <= |b|
    ensures Part(b, fields, i) == b[Offset(fields, i)..Offset(fields, i + 1)]
  {
    OffsetsGrow(fields, i + 1, |fields|);
  }

  lemma Joined(b: seq<byte>, i: nat, j: nat)
    requires i <= j <= |b|
    ensures b[..j] == b[..i] + b[i..j]
  {}

  lemma PartReads(part: seq<byte>, f: Field)
    requires |part| == f.width
    ensures Little(part) == f.value <==> part == LittleBytes(f.value, f.width) && f.value < Pow256(f.width)
  {
    BytesRoundTrip(part);
    if f.value < Pow256(f.width) {
      LittleRoundTrip(f.value, f.width);
    }
  }

  /** Bytes of the right length are the record of these fields exactly if each part reads as its field's value. */
  lemma RecordReads(b: seq<byte>, fields: seq<Field>)
    requires |b| == Offset(fields, |fields|)
    ensures b == Record(fields) && Fit(fields) <==>
      forall i: nat | i < |fields| :: Little(Part(b, fields, i)) == fields[i].value
  {
    hide LittleBytes, Little, Part, Laid, Offset, Pow256;
    forall i: nat | i < |fields|
      ensures Little(Part(b, fields, i)) == fields[i].value <==>
        && Part(b, fields, i) == LittleBytes(fields[i].value, fields[i].width)
        && fields[i].value < Pow256(fields[i].width)
    {
      PartReads(Part(b, fields, i), fields[i]);
    }
    if b == Record(fields) {
      forall i: nat | i < |fields| ensures Part(b, fields, i) == LittleBytes(fields[i].value, fields[i].width) {
        RecordPart(fields, i);
      }
    }
    if forall i: nat | i < |fields| :: Part(b, fields, i) == LittleBytes(fields[i].value, fields[i].width) {
      LaidOver(b, fields, |fields|);
      assert b[..|b|] == b;
    }
  }

  lemma RecordPart(fields: seq<Field>, i: nat)
    requires i < |fields|
    ensures Part(Record(fields), fields, i) == LittleBytes(fields[i].value, fields[i].width)
  {
    hide LittleBytes;
    LaidPart(fields, |fields|, i);
  }
}
