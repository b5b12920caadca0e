/**
  The least-significant-bit codec of the steganographer.

  A carrier is the flat byte buffer of an image's colour samples. Encoding
  writes a four-byte big-endian length header into the least-significant bits
  of carrier bytes 0 .. 31 and the payload's bits into those of bytes 32 on,
  one bit per carrier byte, bytes in order and bits most significant first.
  Decoding reads the header back as a Java `int` and then that many bytes.

  Each operation is specified by a function on sequences (`Embed`,
  `EncodeImageSpec`, `EncodeSpec`, `Decode`, and the corrected
  `EncodeImageCheckedSpec`, `EncodeCheckedSpec`); the methods over arrays follow the
  loops of Steganographer.java and are proved against those functions.
*/
module Steganographer {
  import opened BitPacking

  /** `bytesForTextLengthData`: the header is one Java `int`. */
  const HeaderBytes: nat := 4
  /** `bitsInByte` */
  const BitsInByte: nat := 8
  /** The bit-slot where the payload starts: `bytesForTextLengthData * bitsInByte`. */
  const HeaderBits: nat := HeaderBytes * BitsInByte

  /** The exceptions of the core, by kind; their messages are not modelled. */
  datatype Error =
    | CapacityError      // the IllegalArgumentException thrown by the guard of encodeImage
    | IndexOutOfBounds   // ArrayIndexOutOfBoundsException from a read or write past the carrier
    | NegativeArraySize  // NegativeArraySizeException from `new byte[length]` with a negative header

  datatype Outcome<T> = Success(value: T) | Failure(error: Error)

  /** Whether a write into the carrier ran to completion or stopped with an exception. */
  datatype Status = Done | Failed(error: Error)

  /** How a call that returns `r` ended. */
  function StatusOf<T>(r: Outcome<T>): (s: Status)
    ensures s == Done <==> r.Success?
    ensures r.Failure? ==> s == Failed(r.error)
  {
    if r.Success? then Done else Failed(r.error)
  }

  /** The carrier's contents after a write, and how the write ended. */
  datatype Encoding = Encoding(carrier: seq<bv8>, status: Status)

  // The length header

  /** The unsigned value of four bytes, the first one most significant. */
  function BytesValue(r: seq<bv8>): (u: nat)
    requires |r| == 4
    ensures u < 0x1_0000_0000
  {
    (r[0] as int) * 0x100_0000 + (r[1] as int) * 0x1_0000 + (r[2] as int) * 0x100 + (r[3] as int)
  }

  /** The four base-256 digits of `u`, the most significant first. */
  function Bytes(u: nat): (r: seq<bv8>)
    requires u < 0x1_0000_0000
    ensures |r| == 4
  {
    [ToByte(u / 0x100_0000), ToByte(u / 0x1_0000 % 0x100), ToByte(u / 0x100 % 0x100), ToByte(u % 0x100)]
  }

  /** `Bytes` and `BytesValue` are inverses of each other. */
  lemma {:induction false} BytesValueOfBytes(u: nat)
    requires u < 0x1_0000_0000
    ensures BytesValue(Bytes(u)) == u
  {
    Digits(u);
    ToByteValue(u / 0x100_0000);
    ToByteValue(u / 0x1_0000 % 0x100);
    ToByteValue(u / 0x100 % 0x100);
    ToByteValue(u % 0x100);
  }

  lemma {:induction false} BytesOfBytesValue(r: seq<bv8>)
    requires |r| == 4
    ensures Bytes(BytesValue(r)) == r
  {
    var u := BytesValue(r);
    DigitsUnique(r[0] as int, r[1] as int, r[2] as int, r[3] as int, u);
    ToByteOfValue(r[0]);
    ToByteOfValue(r[1]);
    ToByteOfValue(r[2]);
    ToByteOfValue(r[3]);
    var s := Bytes(u);
    assert s[0] == r[0] && s[1] == r[1] && s[2] == r[2] && s[3] == r[3];
  }

  /**
    `getBytesFromInt`: the four bytes that a fresh four-byte ByteBuffer holds
    after `putInt(n)`, that is `n`'s 32-bit two's-complement pattern in the
    big-endian order ByteBuffer uses by default. Read back as a Java `int`
    they give `n`.
  */
  function GetBytesFromInt(n: Int32): (r: seq<bv8>)
    ensures |r| == HeaderBytes
    ensures BytesValue(r) == n % 0x1_0000_0000
    ensures Signed(BytesValue(r)) == n
  {
    var u := n % 0x1_0000_0000;
    BytesValueOfBytes(u);
    SignedOfMod(n);
    Bytes(u)
  }

  /** Every four bytes are the bytes of the `int` they spell. */
  lemma {:induction false} GetBytesFromIntOfValue(r: seq<bv8>)
    requires |r| == 4
    ensures GetBytesFromInt(Signed(BytesValue(r))) == r
  {
    BytesOfBytesValue(r);
  }

  /** Big-endian order and two's complement, on three values. */
  lemma GetBytesFromIntExamples()
    ensures GetBytesFromInt(1) == [0, 0, 0, 1]
    ensures GetBytesFromInt(0x1234_5678) == [0x12, 0x34, 0x56, 0x78]
    ensures GetBytesFromInt(-1) == [0xFF, 0xFF, 0xFF, 0xFF]
  {
    BytesOfBytesValue([0, 0, 0, 1]);
    BytesOfBytesValue([0x12, 0x34, 0x56, 0x78]);
    BytesOfBytesValue([0xFF, 0xFF, 0xFF, 0xFF]);
  }

  /**
    The bit that encodeImage writes into its `j`-th bit-slot: the bytes of
    `addition` in order, and within each byte bit 7 first, down to bit 0.
  */
  function PayloadBit(addition: seq<bv8>, j: nat): (b: bv8)
    requires j < BitsInByte * |addition|
    ensures b <= 1
  {
    BitOf(addition[j / BitsInByte], 7 - j % BitsInByte)
  }

  /** Bit-slot `8 * i + (7 - k)` holds bit `k` of byte `i`. */
  lemma PayloadBitAt(addition: seq<bv8>, i: nat, k: nat)
    requires i < |addition| && k < 8
    ensures PayloadBit(addition, 8 * i + (7 - k)) == BitOf(addition[i], k)
  {
    assert (8 * i + (7 - k)) / 8 == i && (8 * i + (7 - k)) % 8 == 7 - k;
  }

  /**
    The least-significant bits of `carrier` from index `offset` on hold all
    the bits of `addition`, in the order encodeImage writes them.
  */
  ghost predicate Carries(carrier: seq<bv8>, addition: seq<bv8>, offset: nat)
  {
    offset + BitsInByte * |addition| <= |carrier| &&
    forall k :: offset <= k < offset + BitsInByte * |addition| ==> Lsb(carrier[k]) == PayloadBit(addition, k - offset)
  }

  /**
    The carrier after the first `n` bit-slots of `addition` have been written
    from index `offset` on: those bytes get their least-significant bit
    replaced, `(image[k] & 0xFE) | b`, every other byte is as it was.
  */
  function Embed(image: seq<bv8>, addition: seq<bv8>, offset: nat, n: nat): (r: seq<bv8>)
    requires n <= BitsInByte * |addition| && offset + n <= |image|
    ensures |r| == |image|
  {
    seq(|image|, k requires 0 <= k < |image| => EmbedAt(image, addition, offset, n, k))
  }

  /** Byte `k` of `Embed(image, addition, offset, n)`. */
  function EmbedAt(image: seq<bv8>, addition: seq<bv8>, offset: nat, n: nat, k: nat): (r: bv8)
    requires n <= BitsInByte * |addition| && offset + n <= |image| && k < |image|
    ensures r & 0xFE == image[k] & 0xFE
    ensures offset <= k < offset + n ==> Lsb(r) == PayloadBit(addition, k - offset)
  {
    if offset <= k < offset + n then SetLsb(image[k], PayloadBit(addition, k - offset)) else image[k]
  }

  /**
    What writing the first `n` bit-slots does: every byte keeps its upper seven
    bits, bytes outside the `n` written ones are untouched, and the written
    ones carry the payload's bits; after all bit-slots the carrier carries the
    whole payload.
  */
  lemma EmbedEffect(image: seq<bv8>, addition: seq<bv8>, offset: nat, n: nat)
    requires n <= BitsInByte * |addition| && offset + n <= |image|
    ensures forall k :: 0 <= k < |image| ==> Embed(image, addition, offset, n)[k] & 0xFE == image[k] & 0xFE
    ensures forall k :: 0 <= k < |image| && !(offset <= k < offset + n) ==> Embed(image, addition, offset, n)[k] == image[k]
    ensures forall k :: offset <= k < offset + n ==> Lsb(Embed(image, addition, offset, n)[k]) == PayloadBit(addition, k - offset)
    ensures n == BitsInByte * |addition| ==> Carries(Embed(image, addition, offset, n), addition, offset)
  {
  }

  /** Writing bits that the carrier already carries changes nothing. */
  lemma EmbedCarried(image: seq<bv8>, addition: seq<bv8>, offset: nat)
    requires Carries(image, addition, offset)
    ensures Embed(image, addition, offset, BitsInByte * |addition|) == image
  {
    var r := Embed(image, addition, offset, BitsInByte * |addition|);
    EmbedEffect(image, addition, offset, BitsInByte * |addition|);
    forall k | 0 <= k < |image| ensures r[k] == image[k] {
      SameByte(r[k], image[k]);
    }
  }

  /**
    What `encodeImage(image, addition, offset)` does, as written: the guard
    `addition.length + offset > image.length`, with the sum a wrapping Java
    `int`, throws before any write;
    otherwise the loops write bit-slot after bit-slot and, when the carrier
    ends first, stop with ArrayIndexOutOfBoundsException once every byte from
    `offset` to the end has been written.
  */
  function EncodeImageSpec(image: seq<bv8>, addition: seq<bv8>, offset: nat): (r: Encoding)
    requires |addition| < 0x8000_0000 && offset < 0x8000_0000
    ensures |r.carrier| == |image|
    ensures r.status == Failed(CapacityError) <==> AddInt32(|addition|, offset) > |image|
    ensures |addition| + offset < 0x8000_0000 ==> (r.status == Failed(CapacityError) <==> |addition| + offset > |image|)
    ensures r.status == Done <==> offset + BitsInByte * |addition| <= |image|
    ensures r.status.Failed? ==> r.status.error in {CapacityError, IndexOutOfBounds}
  {
    if AddInt32(|addition|, offset) > |image| then
      Encoding(image, Failed(CapacityError))
    else if offset + BitsInByte * |addition| <= |image| then
      Encoding(Embed(image, addition, offset, BitsInByte * |addition|), Done)
    else if |image| < offset then
      Encoding(image, Failed(IndexOutOfBounds))
    else
      Encoding(Embed(image, addition, offset, |image| - offset), Failed(IndexOutOfBounds))
  }

  /**
    The carrier after encodeImage: untouched when the guard throws; carrying
    the payload when the call completes; with every byte from `offset` to the
    end overwritten by the leading bits of the payload when it stops at the
    end of the carrier. Upper bits and the bytes outside the payload's
    bit-slots are kept in every case.
  */
  lemma EncodeImageEffect(image: seq<bv8>, addition: seq<bv8>, offset: nat)
    requires |addition| < 0x8000_0000 && offset < 0x8000_0000
    ensures EncodeImageSpec(image, addition, offset).status == Failed(CapacityError) ==>
      EncodeImageSpec(image, addition, offset).carrier == image
    ensures EncodeImageSpec(image, addition, offset).status == Done ==>
      Carries(EncodeImageSpec(image, addition, offset).carrier, addition, offset)
    ensures EncodeImageSpec(image, addition, offset).status == Failed(IndexOutOfBounds) ==>
      forall k :: offset <= k < |image| ==> Lsb(EncodeImageSpec(image, addition, offset).carrier[k]) == PayloadBit(addition, k - offset)
    ensures forall k :: 0 <= k < |image| ==> EncodeImageSpec(image, addition, offset).carrier[k] & 0xFE == image[k] & 0xFE
    ensures forall k :: 0 <= k < |image| && !(offset <= k < offset + BitsInByte * |addition|) ==>
      EncodeImageSpec(image, addition, offset).carrier[k] == image[k]
  {
    var r := EncodeImageSpec(image, addition, offset);
    if r.status == Done {
      EmbedEffect(image, addition, offset, BitsInByte * |addition|);
    } else if r.status == Failed(IndexOutOfBounds) && offset <= |image| {
      EmbedEffect(image, addition, offset, |image| - offset);
    }
  }

  /**
    `encodeImage`, as written: mutates `image` in place and returns that same
    array, or fails with the kind of exception the source throws.
  */
  method EncodeImage(image: array<bv8>, addition: seq<bv8>, offset: nat) returns (r: Outcome<array<bv8>>)
    requires |addition| < 0x8000_0000 && offset < 0x8000_0000
    modifies image
    ensures Encoding(image[..], StatusOf(r)) == EncodeImageSpec(old(image[..]), addition, offset)
    ensures r.Success? ==> r.value == image
  {
    ghost var original := image[..];
    if AddInt32(|addition|, offset) > image.Length {
      assert EncodeImageSpec(original, addition, offset) == Encoding(original, Failed(CapacityError));
      return Failure(CapacityError);
    }
    var cursor := offset;
    for i := 0 to |addition|
      invariant cursor == offset + BitsInByte * i
      invariant offset <= image.Length ==> cursor <= image.Length
      invariant offset <= image.Length ==>
        forall k :: 0 <= k < image.Length ==> image[k] == EmbedAt(original, addition, offset, BitsInByte * i, k)
      invariant offset > image.Length ==> i == 0 && image[..] == original
    {
      // Java widens the byte to an `int` with sign extension, which leaves
      // bits 0 .. 7, the only ones read, as they are.
      var additionByte := addition[i];
      var bit: int := BitsInByte - 1;
      while bit >= 0
        invariant -1 <= bit <= 7
        invariant cursor == offset + BitsInByte * i + (7 - bit)
        invariant offset <= image.Length ==> cursor <= image.Length
        invariant offset <= image.Length ==>
          forall k :: 0 <= k < image.Length ==> image[k] == EmbedAt(original, addition, offset, BitsInByte * i + (7 - bit), k)
        invariant offset > image.Length ==> i == 0 && bit == 7 && image[..] == original
      {
        if cursor >= image.Length {
          // With a wrapped guard sum the first write can already be past the end.
          if offset <= image.Length {
            assert image[..] == Embed(original, addition, offset, cursor - offset);
            assert EncodeImageSpec(original, addition, offset) ==
              Encoding(Embed(original, addition, offset, cursor - offset), Failed(IndexOutOfBounds));
          } else {
            assert EncodeImageSpec(original, addition, offset) == Encoding(original, Failed(IndexOutOfBounds));
          }
          return Failure(IndexOutOfBounds);
        }
        var b := (additionByte >> bit) & 1;
        PayloadBitAt(addition, i, bit);
        image[cursor] := (image[cursor] & 0xFE) | b;
        bit, cursor := bit - 1, cursor + 1;
      }
    }
    assert offset <= image.Length;
    assert image[..] == Embed(original, addition, offset, BitsInByte * |addition|);
    assert EncodeImageSpec(original, addition, offset) == Encoding(Embed(original, addition, offset, BitsInByte * |addition|), Done);
    return Success(image);
  }

  /**
    encodeImage with the capacity guard it evidently intends: it rejects,
    before any write, exactly the calls whose bits do not fit.
  */
  function EncodeImageCheckedSpec(image: seq<bv8>, addition: seq<bv8>, offset: nat): (r: Encoding)
    requires |addition| < 0x8000_0000 && offset < 0x8000_0000
    ensures r.status == Done <==> offset + BitsInByte * |addition| <= |image|
    ensures r.status == Done ==> |r.carrier| == |image| && Carries(r.carrier, addition, offset)
    ensures r.status.Failed? ==> r == Encoding(image, Failed(CapacityError))
    ensures r.status == Done ==> r == EncodeImageSpec(image, addition, offset)
  {
    if offset + BitsInByte * |addition| > |image| then
      Encoding(image, Failed(CapacityError))
    else
      Encoding(Embed(image, addition, offset, BitsInByte * |addition|), Done)
  }

  /** The corrected encodeImage: check the bit count, then run the source's loops. */
  method EncodeImageChecked(image: array<bv8>, addition: seq<bv8>, offset: nat) returns (r: Outcome<array<bv8>>)
    requires |addition| < 0x8000_0000 && offset < 0x8000_0000
    modifies image
    ensures Encoding(image[..], StatusOf(r)) == EncodeImageCheckedSpec(old(image[..]), addition, offset)
    ensures r.Success? ==> r.value == image
  {
    if offset + BitsInByte * |addition| > image.Length {
      return Failure(CapacityError);
    }
    r := EncodeImage(image, addition, offset);
  }

  /**
    The encoding at lines 55-58 of Steganographer.java: `encodeImage` with the
    header `getBytesFromInt(length)` at bit-slot 0, then with the payload at
    bit-slot 32; the first exception ends the encoding, with the carrier as
    the failing call left it.
  */
  function EncodeSpec(image: seq<bv8>, payload: seq<bv8>): (r: Encoding)
    requires |payload| < 0x8000_0000
    ensures |r.carrier| == |image|
    ensures r.status == Done <==> HeaderBits + BitsInByte * |payload| <= |image|
    ensures r.status == Failed(CapacityError) <==>
      |image| < HeaderBytes || (HeaderBits <= |image| < HeaderBits + |payload| && |payload| < 0x8000_0000 - HeaderBits)
    ensures r.status.Failed? ==> r.status.error in {CapacityError, IndexOutOfBounds}
  {
    var header := EncodeImageSpec(image, GetBytesFromInt(|payload|), 0);
    if header.status != Done then header
    else EncodeImageSpec(header.carrier, payload, HeaderBits)
  }

  /**
    The carrier after the encoding: when it succeeds, it carries the header
    at bit-slot 0 and the payload at bit-slot 32; in every case each byte
    keeps its upper seven bits and the bytes after the payload's bit-slots are
    untouched.
  */
  lemma {:induction false} EncodeEffect(image: seq<bv8>, payload: seq<bv8>)
    requires |payload| < 0x8000_0000
    ensures EncodeSpec(image, payload).status == Done ==>
      Carries(EncodeSpec(image, payload).carrier, GetBytesFromInt(|payload|), 0) &&
      Carries(EncodeSpec(image, payload).carrier, payload, HeaderBits)
    ensures forall k :: 0 <= k < |image| ==> EncodeSpec(image, payload).carrier[k] & 0xFE == image[k] & 0xFE
    ensures forall k :: HeaderBits + BitsInByte * |payload| <= k < |image| ==> EncodeSpec(image, payload).carrier[k] == image[k]
  {
    var h := GetBytesFromInt(|payload|);
    var header := EncodeImageSpec(image, h, 0);
    EncodeImageEffect(image, h, 0);
    if header.status == Done {
      EncodeImageEffect(header.carrier, payload, HeaderBits);
      var r := EncodeSpec(image, payload);
      if r.status == Done {
        forall k | 0 <= k < HeaderBits
          ensures Lsb(r.carrier[k]) == PayloadBit(h, k)
        {
          assert r.carrier[k] == header.carrier[k];
        }
      }
    }
  }

  /**
    What a failed header write leaves behind: a carrier shorter than the
    header's four bytes is untouched; a longer one that is still shorter than
    32 bytes has every byte's least-significant bit overwritten with the
    header's leading bits.
  */
  lemma {:induction false} EncodeFailureEffect(image: seq<bv8>, payload: seq<bv8>)
    requires |payload| < 0x8000_0000
    ensures |image| < HeaderBytes ==> EncodeSpec(image, payload).carrier == image
    ensures HeaderBytes <= |image| < HeaderBits ==>
      forall k :: 0 <= k < |image| ==> Lsb(EncodeSpec(image, payload).carrier[k]) == PayloadBit(GetBytesFromInt(|payload|), k)
  {
    EncodeImageEffect(image, GetBytesFromInt(|payload|), 0);
  }

  /**
    What a failed payload write leaves behind once the header is written: the
    header stays; a payload that the guard rejects leaves every byte after the
    header untouched, and one that runs off the end has its leading bits in
    every byte from 32 on. The guard rejects only payloads shorter than
    2^31 - 32 bytes: for longer ones `length + 32` wraps to a negative `int`.
  */
  lemma {:induction false} EncodePayloadFailureEffect(image: seq<bv8>, payload: seq<bv8>)
    requires |payload| < 0x8000_0000 && HeaderBits <= |image|
    ensures Carries(EncodeSpec(image, payload).carrier, GetBytesFromInt(|payload|), 0)
    ensures |image| < HeaderBits + |payload| && |payload| < 0x8000_0000 - HeaderBits ==>
      forall k :: HeaderBits <= k < |image| ==> EncodeSpec(image, payload).carrier[k] == image[k]
    ensures EncodeSpec(image, payload).status == Failed(IndexOutOfBounds) ==>
      forall k :: HeaderBits <= k < |image| ==> Lsb(EncodeSpec(image, payload).carrier[k]) == PayloadBit(payload, k - HeaderBits)
  {
    var h := GetBytesFromInt(|payload|);
    var header := EncodeImageSpec(image, h, 0);
    EncodeImageEffect(image, h, 0);
    var r := EncodeSpec(image, payload);
    EncodeImageEffect(header.carrier, payload, HeaderBits);
    forall k | 0 <= k < HeaderBits
      ensures Lsb(r.carrier[k]) == PayloadBit(h, k)
    {
      assert r.carrier[k] == header.carrier[k];
    }
  }

  /**
    Lines 55-58 of `encode`: write the length header, then the payload, into
    the carrier in place with `encodeImage`; the first failure ends the
    encoding.
  */
  method Encode(image: array<bv8>, payload: seq<bv8>) returns (r: Outcome<array<bv8>>)
    requires |payload| < 0x8000_0000
    modifies image
    ensures Encoding(image[..], StatusOf(r)) == EncodeSpec(old(image[..]), payload)
    ensures r.Success? ==> r.value == image
  {
    var textLengthInBytes := GetBytesFromInt(|payload|);
    r := EncodeImage(image, textLengthInBytes, 0);
    if r.Failure? {
      return;
    }
    r := EncodeImage(image, payload, HeaderBits);
  }

  /**
    The encoding with the corrected guard of `EncodeImageCheckedSpec` in both
    calls. A payload that does not fit leaves the header written.
  */
  function EncodeCheckedSpec(image: seq<bv8>, payload: seq<bv8>): (r: Encoding)
    requires |payload| < 0x8000_0000
    ensures |r.carrier| == |image|
    ensures r.status == Done <==> HeaderBits + BitsInByte * |payload| <= |image|
    ensures r.status.Failed? ==> r.status.error == CapacityError
  {
    var header := EncodeImageCheckedSpec(image, GetBytesFromInt(|payload|), 0);
    if header.status != Done then header
    else EncodeImageCheckedSpec(header.carrier, payload, HeaderBits)
  }

  /**
    The carrier after the corrected encoding: when it succeeds, it carries
    the header at bit-slot 0 and the payload at bit-slot 32; in every case
    each byte keeps its upper seven bits and the bytes after the payload's
    bit-slots are untouched. A carrier too short for the header is left as
    it was.
  */
  lemma {:induction false} EncodeCheckedEffect(image: seq<bv8>, payload: seq<bv8>)
    requires |payload| < 0x8000_0000
    ensures EncodeCheckedSpec(image, payload).status == Done ==>
      Carries(EncodeCheckedSpec(image, payload).carrier, GetBytesFromInt(|payload|), 0) &&
      Carries(EncodeCheckedSpec(image, payload).carrier, payload, HeaderBits)
    ensures forall k :: 0 <= k < |image| ==> EncodeCheckedSpec(image, payload).carrier[k] & 0xFE == image[k] & 0xFE
    ensures forall k :: HeaderBits + BitsInByte * |payload| <= k < |image| ==> EncodeCheckedSpec(image, payload).carrier[k] == image[k]
    ensures |image| < HeaderBits ==> EncodeCheckedSpec(image, payload).carrier == image
  {
    var h := GetBytesFromInt(|payload|);
    var r := EncodeCheckedSpec(image, payload);
    if HeaderBits <= |image| {
      var c := Embed(image, h, 0, HeaderBits);
      EmbedEffect(image, h, 0, HeaderBits);
      if HeaderBits + BitsInByte * |payload| <= |image| {
        EmbedEffect(c, payload, HeaderBits, BitsInByte * |payload|);
        assert r.carrier == Embed(c, payload, HeaderBits, BitsInByte * |payload|);
        forall k | 0 <= k < HeaderBits
          ensures Lsb(r.carrier[k]) == PayloadBit(h, k)
        {
          assert r.carrier[k] == c[k];
        }
      }
    }
  }

  /** The encoding with `EncodeImageChecked` in both calls. */
  method EncodeChecked(image: array<bv8>, payload: seq<bv8>) returns (r: Outcome<array<bv8>>)
    requires |payload| < 0x8000_0000
    modifies image
    ensures Encoding(image[..], StatusOf(r)) == EncodeCheckedSpec(old(image[..]), payload)
    ensures r.Success? ==> r.value == image
  {
    var textLengthInBytes := GetBytesFromInt(|payload|);
    r := EncodeImageChecked(image, textLengthInBytes, 0);
    if r.Failure? {
      return;
    }
    r := EncodeImageChecked(image, payload, HeaderBits);
  }

  // Decoding

  /** The Java `int` that the first loop of `decodeImage` accumulates from the least-significant bits of bytes 0 .. 31. */
  function HeaderLength(image: seq<bv8>): Int32
    requires HeaderBits <= |image|
  {
    FoldInt32(image, 0, HeaderBits)
  }

  /** The four bytes that the least-significant bits of carrier bytes 0 .. 31 spell. */
  function HeaderBytesOf(image: seq<bv8>): (r: seq<bv8>)
    requires HeaderBits <= |image|
    ensures |r| == HeaderBytes
  {
    [Fold8(image, 0, 8), Fold8(image, 8, 8), Fold8(image, 16, 8), Fold8(image, 24, 8)]
  }

  /** The accumulated header is the `int` whose big-endian bytes the carrier spells. */
  lemma {:induction false} HeaderLengthOfBytes(image: seq<bv8>)
    requires HeaderBits <= |image|
    ensures HeaderLength(image) == Signed(BytesValue(HeaderBytesOf(image)))
  {
    var r := HeaderBytesOf(image);
    var u := BytesValue(r);
    Accumulate32(image, 0);
    assert Accumulate(image, 0, HeaderBits) == u;
    FoldInt32Wraps(image, 0, HeaderBits);
    SmallMod(u);
  }

  /**
    What `decodeImage` returns, or the exception it ends with: a carrier
    shorter than the header, a header that is a negative `int`
    (`new byte[length]`), or a length whose bytes run past the carrier.
    Byte `b` of the result is accumulated from the least-significant bits of
    carrier bytes `32 + 8 * b` .. `32 + 8 * b + 7`.
  */
  function Decode(image: seq<bv8>): (r: Outcome<seq<bv8>>)
    ensures r.Success? ==> HeaderBits + BitsInByte * |r.value| <= |image| && HeaderLength(image) == |r.value|
    ensures r == Failure(NegativeArraySize) <==> HeaderBits <= |image| && HeaderLength(image) < 0
    ensures r.Failure? ==> r.error in {NegativeArraySize, IndexOutOfBounds}
  {
    if |image| < HeaderBits then
      Failure(IndexOutOfBounds)
    else
      var length := HeaderLength(image);
      if length < 0 then
        Failure(NegativeArraySize)
      else if HeaderBits + BitsInByte * length > |image| then
        Failure(IndexOutOfBounds)
      else
        Success(seq(length, b requires 0 <= b < length => Fold8(image, HeaderBits + BitsInByte * b, BitsInByte)))
  }

  /**
    `decodeImage`: accumulate the `int` header, allocate `new byte[length]`,
    and fill it byte by byte from the carrier's least-significant bits; the
    result is the contents of that fresh array.
  */
  method DecodeImage(image: array<bv8>) returns (r: Outcome<seq<bv8>>)
    ensures r == Decode(image[..])
  {
    ghost var data := image[..];
    var length: Int32 := 0;
    var offset := HeaderBytes * BitsInByte;
    for i := 0 to offset
      invariant i <= image.Length
      invariant length == FoldInt32(data, 0, i)
    {
      if i >= image.Length {
        return Failure(IndexOutOfBounds);
      }
      length := ShiftIn(length, image[i] & 1);
    }
    if length < 0 {
      return Failure(NegativeArraySize);
    }
    var result := new bv8[length](_ => 0);
    assert result[..] == Partial(data, length, 0, 0);
    for b := 0 to result.Length
      invariant offset == HeaderBits + BitsInByte * b <= image.Length
      invariant result[..] == Partial(data, length, b, 0)
    {
      for i := 0 to BitsInByte
        invariant offset == HeaderBits + BitsInByte * b + i <= image.Length
        invariant result[..] == Partial(data, length, b, i)
      {
        if offset >= image.Length {
          return Failure(IndexOutOfBounds);
        }
        PartialStep(data, length, b, i);
        result[b] := (result[b] << 1) | (image[offset] & 1);
        offset := offset + 1;
      }
      PartialNext(data, length, b);
    }
    assert result[..] == seq(length, b requires 0 <= b < length => Fold8(data, HeaderBits + BitsInByte * b, BitsInByte));
    return Success(result[..]);
  }

  /**
    The contents of decodeImage's `result` array while it fills byte `b` and
    has accumulated `i` of its bits: bytes before `b` are complete, byte `b`
    holds its first `i` bits and the later ones are still 0.
  */
  ghost function Partial(data: seq<bv8>, length: nat, b: nat, i: nat): (r: seq<bv8>)
    requires i <= BitsInByte && (b < length || (b == length && i == 0))
    requires HeaderBits + BitsInByte * b + i <= |data|
    ensures |r| == length
  {
    seq(length, c requires 0 <= c < length =>
      if c < b then Fold8(data, HeaderBits + BitsInByte * c, BitsInByte)
      else if c == b then Fold8(data, HeaderBits + BitsInByte * b, i)
      else 0)
  }

  lemma PartialStep(data: seq<bv8>, length: nat, b: nat, i: nat)
    requires i < BitsInByte && b < length && HeaderBits + BitsInByte * b + i < |data|
    ensures Partial(data, length, b, i + 1) ==
      Partial(data, length, b, i)[b := (Partial(data, length, b, i)[b] << 1) | (data[HeaderBits + BitsInByte * b + i] & 1)]
  {
  }

  lemma PartialNext(data: seq<bv8>, length: nat, b: nat)
    requires b < length && HeaderBits + BitsInByte * (b + 1) <= |data|
    ensures Partial(data, length, b, BitsInByte) == Partial(data, length, b + 1, 0)
  {
  }

  // Properties of the codec

  /** Bit order: the least-significant bit of byte `offset + 8 * i + (7 - k)` is bit `k` of byte `i`. */
  lemma CarriesBitOrder(carrier: seq<bv8>, addition: seq<bv8>, offset: nat, i: nat, k: nat)
    requires Carries(carrier, addition, offset) && i < |addition| && k < 8
    ensures Lsb(carrier[offset + BitsInByte * i + (7 - k)]) == BitOf(addition[i], k)
  {
    PayloadBitAt(addition, i, k);
  }

  /** A carried payload is read back byte by byte by the 8-bit accumulation. */
  lemma {:induction false} CarriedBytes(carrier: seq<bv8>, addition: seq<bv8>, offset: nat)
    requires Carries(carrier, addition, offset)
    ensures forall i :: 0 <= i < |addition| ==> Fold8(carrier, offset + BitsInByte * i, BitsInByte) == addition[i]
  {
    forall i | 0 <= i < |addition|
      ensures Fold8(carrier, offset + BitsInByte * i, BitsInByte) == addition[i]
    {
      var s := offset + BitsInByte * i;
      forall j | s <= j < s + 8
        ensures Lsb(carrier[j]) == BitOf(addition[i], 7 - (j - s))
      {
        PayloadBitAt(addition, i, 7 - (j - s));
      }
      Fold8OfBits(carrier, s, addition[i]);
    }
  }

  /** And bytes read back that way are carried. */
  lemma {:induction false} BytesCarried(carrier: seq<bv8>, addition: seq<bv8>, offset: nat)
    requires offset + BitsInByte * |addition| <= |carrier|
    requires forall i :: 0 <= i < |addition| ==> Fold8(carrier, offset + BitsInByte * i, BitsInByte) == addition[i]
    ensures Carries(carrier, addition, offset)
  {
    forall k | offset <= k < offset + BitsInByte * |addition|
      ensures Lsb(carrier[k]) == PayloadBit(addition, k - offset)
    {
      var i := (k - offset) / BitsInByte;
      var s := offset + BitsInByte * i;
      assert s <= k < s + 8;
      Fold8Bits(carrier, s);
      PayloadBitAt(addition, i, 7 - (k - s));
    }
  }

  /** The header that the carrier carries is the length that decodeImage reads. */
  lemma {:induction false} CarriedHeader(carrier: seq<bv8>, n: Int32)
    requires Carries(carrier, GetBytesFromInt(n), 0)
    ensures HeaderLength(carrier) == n
  {
    var r := GetBytesFromInt(n);
    CarriedBytes(carrier, r, 0);
    assert Fold8(carrier, 0 + BitsInByte * 1, BitsInByte) == r[1];
    assert Fold8(carrier, 0 + BitsInByte * 2, BitsInByte) == r[2];
    assert Fold8(carrier, 0 + BitsInByte * 3, BitsInByte) == r[3];
    assert HeaderBytesOf(carrier) == r;
    HeaderLengthOfBytes(carrier);
  }

  /**
    decodeImage returns `payload` exactly when the carrier carries the header
    `getBytesFromInt(payload.length)` at bit-slot 0 and the payload at
    bit-slot 32.
  */
  lemma DecodeCharacterized(carrier: seq<bv8>, payload: seq<bv8>)
    ensures Decode(carrier) == Success(payload) <==>
      |payload| < 0x8000_0000 &&
      Carries(carrier, GetBytesFromInt(|payload|), 0) && Carries(carrier, payload, HeaderBits)
  {
    if Decode(carrier) == Success(payload) {
      DecodedIsCarried(carrier, payload);
    }
    if |payload| < 0x8000_0000 && Carries(carrier, GetBytesFromInt(|payload|), 0) && Carries(carrier, payload, HeaderBits) {
      CarriedIsDecoded(carrier, payload);
    }
  }

  lemma {:induction false} DecodedIsCarried(carrier: seq<bv8>, payload: seq<bv8>)
    requires Decode(carrier) == Success(payload)
    ensures |payload| < 0x8000_0000
    ensures Carries(carrier, GetBytesFromInt(|payload|), 0) && Carries(carrier, payload, HeaderBits)
  {
    DecodedHeaderCarried(carrier, payload);
    BytesCarried(carrier, payload, HeaderBits);
  }

  /** The header of a decoded carrier is `getBytesFromInt` of the payload's length. */
  lemma {:induction false} DecodedHeaderCarried(carrier: seq<bv8>, payload: seq<bv8>)
    requires Decode(carrier) == Success(payload)
    ensures |payload| < 0x8000_0000
    ensures Carries(carrier, GetBytesFromInt(|payload|), 0)
  {
    assert HeaderLength(carrier) == |payload|;
    HeaderCarried(carrier);
  }

  /** Every carrier long enough for a header carries `getBytesFromInt` of the length it holds. */
  lemma {:induction false} HeaderCarried(carrier: seq<bv8>)
    requires HeaderBits <= |carrier|
    ensures Carries(carrier, GetBytesFromInt(HeaderLength(carrier)), 0)
  {
    var header := HeaderBytesOf(carrier);
    HeaderLengthOfBytes(carrier);
    GetBytesFromIntOfValue(header);
    assert GetBytesFromInt(HeaderLength(carrier)) == header;
    forall i | 0 <= i < 4
      ensures Fold8(carrier, 0 + BitsInByte * i, BitsInByte) == header[i]
    {
      assert i == 0 || i == 1 || i == 2 || i == 3;
    }
    BytesCarried(carrier, header, 0);
  }

  lemma {:induction false} CarriedIsDecoded(carrier: seq<bv8>, payload: seq<bv8>)
    requires |payload| < 0x8000_0000
    requires Carries(carrier, GetBytesFromInt(|payload|), 0) && Carries(carrier, payload, HeaderBits)
    ensures Decode(carrier) == Success(payload)
  {
    CarriedHeader(carrier, |payload|);
    CarriedBytes(carrier, payload, HeaderBits);
    DecodeOfParts(carrier, payload);
  }

  /** decodeImage succeeds with the bytes it reads once the header holds their number and they fit. */
  lemma {:induction false} DecodeOfParts(carrier: seq<bv8>, payload: seq<bv8>)
    requires HeaderBits + BitsInByte * |payload| <= |carrier|
    requires HeaderLength(carrier) == |payload|
    requires forall i :: 0 <= i < |payload| ==> Fold8(carrier, HeaderBits + BitsInByte * i, BitsInByte) == payload[i]
    ensures Decode(carrier) == Success(payload)
  {
    var length := |payload|;
    var read := seq(length, b requires 0 <= b < length => Fold8(carrier, HeaderBits + BitsInByte * b, BitsInByte));
    assert read == payload;
  }

  /**
    The round trip: when the header and the payload fit, encoding succeeds and
    decoding its carrier gives the payload back, whatever the carrier held
    before, for every payload including the empty one. The corrected
    encoding does the same.
  */
  lemma {:induction false} RoundTrip(image: seq<bv8>, payload: seq<bv8>)
    requires |payload| < 0x8000_0000
    requires HeaderBits + BitsInByte * |payload| <= |image|
    ensures EncodeSpec(image, payload).status == Done
    ensures Decode(EncodeSpec(image, payload).carrier) == Success(payload)
    ensures EncodeCheckedSpec(image, payload) == EncodeSpec(image, payload)
  {
    EncodeEffect(image, payload);
    CarriedIsDecoded(EncodeSpec(image, payload).carrier, payload);
    EncodeCheckedAgrees(image, payload);
  }

  /** Encoding into a carrier the message it already holds leaves it as it is. */
  lemma {:induction false} EncodeDecoded(image: seq<bv8>, payload: seq<bv8>)
    requires Decode(image) == Success(payload)
    ensures |payload| < 0x8000_0000
    ensures EncodeSpec(image, payload) == Encoding(image, Done)
  {
    DecodedIsCarried(image, payload);
    EmbedCarried(image, GetBytesFromInt(|payload|), 0);
    EmbedCarried(image, payload, HeaderBits);
  }

  /** decodeImage reads nothing of the carrier but its least-significant bits. */
  lemma {:induction false} DecodeReadsOnlyLsbs(c: seq<bv8>, d: seq<bv8>)
    requires |c| == |d|
    requires forall k :: 0 <= k < |c| ==> Lsb(c[k]) == Lsb(d[k])
    ensures Decode(c) == Decode(d)
  {
    if HeaderBits <= |c| {
      FoldInt32SameLsbs(c, d, 0, HeaderBits);
      var length := HeaderLength(c);
      if 0 <= length && HeaderBits + BitsInByte * length <= |c| {
        forall b | 0 <= b < length
          ensures Fold8(c, HeaderBits + BitsInByte * b, BitsInByte) == Fold8(d, HeaderBits + BitsInByte * b, BitsInByte)
        {
          Fold8SameLsbs(c, d, HeaderBits + BitsInByte * b, BitsInByte);
        }
        assert seq(length, b requires 0 <= b < length => Fold8(c, HeaderBits + BitsInByte * b, BitsInByte)) ==
          seq(length, b requires 0 <= b < length => Fold8(d, HeaderBits + BitsInByte * b, BitsInByte));
      }
    }
  }

  // The findings about encodeImage's guard

  /**
    A call that encodeImage's guard lets through and whose bits do not fit:
    10 carrier bytes, 4 payload bytes at offset 0. The loops write all ten
    bytes and then throw ArrayIndexOutOfBoundsException.
  */
  lemma GuardTooWeak()
    ensures var image := seq(10, _ => 0 as bv8);
      var addition: seq<bv8> := [0xFF, 0, 0, 0];
      !(|addition| + 0 > |image|) &&
      EncodeImageSpec(image, addition, 0) ==
        Encoding(seq(10, k => if k < 8 then 1 as bv8 else 0), Failed(IndexOutOfBounds))
  {
    var image := seq(10, _ => 0 as bv8);
    var addition: seq<bv8> := [0xFF, 0, 0, 0];
    var r := EncodeImageSpec(image, addition, 0);
    EncodeImageEffect(image, addition, 0);
    forall k | 0 <= k < 10
      ensures r.carrier[k] == if k < 8 then 1 as bv8 else 0
    {
      PayloadBitAt(addition, 0, 7 - k % 8);
      SameByte(r.carrier[k], if k < 8 then 1 as bv8 else 0);
    }
  }

  /**
    A call whose guard sum wraps: the payload call of `encode` with a
    payload of 2^31 - 32 bytes, on a 100-byte carrier. `length + 32` is
    -2^31, so the guard passes, bytes 32 .. 99 are rewritten and the loops
    throw ArrayIndexOutOfBoundsException.
  */
  lemma GuardOverflows()
    ensures var image := seq(100, _ => 1 as bv8);
      var addition := seq(0x7FFF_FFE0, _ => 0 as bv8);
      AddInt32(|addition|, HeaderBits) == -0x8000_0000 &&
      EncodeImageSpec(image, addition, HeaderBits) ==
        Encoding(seq(100, k => if k < HeaderBits then 1 as bv8 else 0), Failed(IndexOutOfBounds))
  {
    var image := seq(100, _ => 1 as bv8);
    var addition := seq(0x7FFF_FFE0, _ => 0 as bv8);
    var r := EncodeImageSpec(image, addition, HeaderBits);
    EncodeImageEffect(image, addition, HeaderBits);
    forall k | 0 <= k < 100
      ensures r.carrier[k] == if k < HeaderBits then 1 as bv8 else 0
    {
      if k >= HeaderBits {
        SameByte(r.carrier[k], 0);
      }
    }
  }

  /**
    Through `encode`, the corrected guard changes no outcome that `encode`
    keeps: the two encodings fail in the same cases, and on success they
    leave the same carrier. They differ only in which exception a failure
    throws and in the bytes a failing call has already overwritten.
  */
  lemma {:induction false} EncodeCheckedAgrees(image: seq<bv8>, payload: seq<bv8>)
    requires |payload| < 0x8000_0000
    ensures EncodeSpec(image, payload).status == Done <==> EncodeCheckedSpec(image, payload).status == Done
    ensures EncodeCheckedSpec(image, payload).status == Done ==> EncodeSpec(image, payload) == EncodeCheckedSpec(image, payload)
  {
    var h := GetBytesFromInt(|payload|);
    var header := EncodeImageSpec(image, h, 0);
    if header.status == Done {
      assert EncodeImageCheckedSpec(image, h, 0) == header;
      assert EncodeSpec(image, payload) == EncodeImageSpec(header.carrier, payload, HeaderBits);
      assert EncodeCheckedSpec(image, payload) == EncodeImageCheckedSpec(header.carrier, payload, HeaderBits);
    }
  }
}
