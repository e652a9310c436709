/**
  The BER/DER tag-and-length header that the proxy reads in front of every LDAP message,
  as pure functions of the bytes still to come on a connection.

  ParseHeader follows readTagAndLength (server/proxy.go:204-268) step by step, LongLength is
  its length loop, and ParseFrame adds the payload read of readLdapMessageBytes. Beside them,
  WellFormedHeader and EncodeHeader say independently which headers are accepted and what
  they mean, and the lemmas connect the two views.
*/
module Ber {

  newtype byte = x: int | 0 <= x < 256

  /** The identifier and length of one BER element (goldap's message.TagAndLength). */
  datatype TagAndLength = TagAndLength(Class: int, IsCompound: bool, Tag: int, Length: int)

  /** Why reading one message off a connection stopped. */
  datatype ReadError =
    | Eof                    // conn.Read delivered no byte: the peer has gone
    | UnexpectedTag(b: byte) // leading byte other than 0x30; the source panics here
    | IndefiniteLength       // "indefinite length found (not DER)"
    | LengthTooLarge         // "length too large"
    | LeadingZeros           // "superfluous leading zeros in length"

  datatype Result<T> = Ok(value: T) | Err(error: ReadError)

  /** The only leading byte the proxy accepts: universal, constructed, tag 16 (SEQUENCE). */
  const SequenceTag: byte := 0x30

  /** `1 << 23`: a length at or above this cannot be shifted left by 8 within 31 bits. */
  const ShiftLimit: int := 0x80_0000

  /** `1 << 31`: every length the reader accepts stays below this. */
  const LengthLimit: int := 0x8000_0000

  /** What the length loop ends with: the length and the index after its last octet, or an error
      and the number of bytes consumed before the loop returned. */
  datatype LengthOutcome = Decoded(value: int, end: nat) | Rejected(error: ReadError, consumed: nat)

  /** What readTagAndLength ends with: the header and its size in bytes, or an error and how many
      bytes it consumed before returning. */
  datatype Header = Header(tl: TagAndLength, size: nat) | HeaderError(error: ReadError, consumed: nat)

  /** What readLdapMessageBytes ends with: the message bytes and how many bytes it took from the
      connection (fewer than |bytes| when the payload was padded), or an error. */
  datatype Frame =
    | Frame(tl: TagAndLength, bytes: seq<byte>, consumed: nat)
    | FrameError(error: ReadError, consumed: nat)

  function Min(a: int, b: int): int { if a <= b then a else b }

  /** The zero bytes `make([]byte, n)` starts with. */
  function Zeros(n: nat): (z: seq<byte>)
    ensures |z| == n && forall i :: 0 <= i < n ==> z[i] == 0
  {
    if n == 0 then [] else Zeros(n - 1) + [0]
  }

  /** Unsigned big-endian value of a sequence of length octets. */
  function BigEndian(d: seq<byte>): nat
  {
    if d == [] then 0 else BigEndian(d[..|d| - 1]) * 256 + d[|d| - 1] as int
  }

  lemma BigEndianSnoc(d: seq<byte>, b: byte)
    ensures BigEndian(d + [b]) == BigEndian(d) * 256 + b as int
  {
    assert (d + [b])[..|d|] == d;
  }

  // The bit operations of the source, written as arithmetic on the byte's value; the
  // lemmas after them show that each one is the mask or shift it stands for.

  /** `b >> 6`: the class bits of an identifier octet. */
  function ClassBits(b: byte): (c: int)
    ensures 0 <= c < 4
  {
    b as int / 0x40
  }

  /** `b&0x20 == 0x20`: the constructed bit of an identifier octet. */
  predicate ConstructedBit(b: byte) { (b as int / 0x20) % 2 == 1 }

  /** `b & 0x1f`: the tag number bits of an identifier octet. */
  function TagBits(b: byte): (t: int)
    ensures 0 <= t < 0x20
  {
    b as int % 0x20
  }

  /** `b&0x80 != 0`: a length octet in long form (or indefinite). */
  predicate HighBit(b: byte) { b >= 0x80 }

  /** `b & 0x7f`: the short-form length, or the number of long-form length octets. */
  function LowBits(b: byte): (n: int)
    ensures 0 <= n < 0x80 && (n == b as int <==> !HighBit(b))
  {
    b as int % 0x80
  }

  /** The long-form length octet that announces `n` length octets. */
  lemma LengthOctetCount(n: nat)
    requires n < 0x80
    ensures HighBit((0x80 + n) as byte) && LowBits((0x80 + n) as byte) == n
  {
    assert (0x80 + n) % 0x80 == n;
  }

  lemma ClassBitsAgree(v: bv8)
    ensures ClassBits(v as byte) == (v >> 6) as int
  {
  }

  lemma ConstructedBitAgrees(v: bv8)
    ensures ConstructedBit(v as byte) == (v & 0x20 == 0x20)
  {
  }

  lemma TagBitsAgree(v: bv8)
    ensures TagBits(v as byte) == (v & 0x1f) as int
  {
  }

  lemma HighBitAgrees(v: bv8)
    ensures HighBit(v as byte) == (v & 0x80 != 0)
  {
  }

  lemma LowBitsAgree(v: bv8)
    ensures LowBits(v as byte) == (v & 0x7f) as int
  {
  }

  /** The fields readTagAndLength derives from the identifier octet. */
  function Identifier(b: byte, length: int): (tl: TagAndLength)
    ensures tl.Length == length && 0 <= tl.Class < 4 && 0 <= tl.Tag < 0x20
  {
    TagAndLength(ClassBits(b), ConstructedBit(b), TagBits(b), length)
  }

  /** The header of a SEQUENCE of the given length. */
  function SequenceHeader(length: int): TagAndLength
  {
    TagAndLength(0, true, 16, length)
  }

  /**
    The loop of server/proxy.go:245-264. `s` is what remained on the connection when the header
    started; `n` length octets are still to be read starting at s[k], and `acc` is the length
    accumulated so far. Each octet is consumed before the size guard is checked.
  */
  function LongLength(s: seq<byte>, k: nat, n: nat, acc: int): (r: LengthOutcome)
    requires k <= |s|
    ensures r.Decoded? ==> r.end == k + n <= |s| && (acc >= 0 ==> r.value >= 0)
    ensures r.Rejected? ==> k <= r.consumed <= |s| && r.error in {Eof, LengthTooLarge, LeadingZeros}
    ensures r.Rejected? && r.error == Eof ==> r.consumed == |s|
    ensures r.Rejected? && r.error != Eof ==> k < r.consumed
    decreases n
  {
    if n == 0 then Decoded(acc, k)
    else if k == |s| then Rejected(Eof, k)
    else if acc >= ShiftLimit then Rejected(LengthTooLarge, k + 1)
    else
      // `<<= 8` then `|= int(b)`: after the shift the low eight bits are zero, so the or adds b
      var acc' := acc * 256 + s[k] as int;
      if acc' == 0 then Rejected(LeadingZeros, k + 1)
      else LongLength(s, k + 1, n - 1, acc')
  }

  /** readTagAndLength (server/proxy.go:204-268) on the bytes `s` remaining on the connection. */
  function ParseHeader(s: seq<byte>): (h: Header)
    ensures h.Header? ==> 2 <= h.size <= |s| && h.tl.Length >= 0
    ensures h.HeaderError? ==> h.consumed <= |s|
    ensures h.HeaderError? && h.error == Eof ==> h.consumed == |s|
    ensures h.HeaderError? && h.error != Eof ==> 0 < h.consumed
  {
    if |s| == 0 then HeaderError(Eof, 0)
    else if s[0] != SequenceTag then HeaderError(UnexpectedTag(s[0]), 1)
    else if |s| == 1 then HeaderError(Eof, 1)
    else if !HighBit(s[1]) then Header(Identifier(s[0], LowBits(s[1])), 2)
    else
      var numBytes := LowBits(s[1]);
      if numBytes == 0 then HeaderError(IndefiniteLength, 2)
      else
        match LongLength(s, 2, numBytes, 0)
        case Decoded(length, end) => Header(Identifier(s[0], length), end)
        case Rejected(e, c) => HeaderError(e, c)
  }

  /**
    readLdapMessageBytes (server/proxy.go:173-182) on the bytes `s` remaining on the connection.
    The payload read follows the source: when fewer than Length bytes remain, the bytes that
    arrived are followed by zeros up to Length, and the frame is returned all the same.
  */
  function ParseFrame(s: seq<byte>): (f: Frame)
    ensures f.Frame? ==> 2 <= f.consumed <= |s| && f.consumed <= |f.bytes|
    ensures f.FrameError? ==> f.consumed <= |s|
  {
    match ParseHeader(s)
    case HeaderError(e, c) => FrameError(e, c)
    case Header(tl, size) =>
      var arrived := Min(tl.Length, |s| - size);
      Frame(tl, s[..size + arrived] + Zeros(tl.Length - arrived), size + arrived)
  }

  /** The headers readTagAndLength accepts, described without following its steps: a 0x30
      identifier, then either a short-form length or a long form whose first length octet
      is not zero and whose value is below 2^31. */
  ghost predicate WellFormedHeader(s: seq<byte>, length: int, size: nat)
  {
    |s| >= 2 && s[0] == SequenceTag &&
    if !HighBit(s[1]) then
      length == s[1] as int && size == 2
    else
      var n := LowBits(s[1]);
      0 < n && size == 2 + n && size <= |s| && s[2] != 0 &&
      length == BigEndian(s[2..size]) && length < LengthLimit
  }

  /** Minimal big-endian octets of `x`. */
  function ToBigEndian(x: nat): (d: seq<byte>)
    ensures 1 <= |d| && BigEndian(d) == x
    ensures x > 0 ==> d[0] != 0
    ensures x < 0x100 ==> |d| == 1
    ensures x < 0x1_0000 ==> |d| <= 2
    ensures x < 0x100_0000 ==> |d| <= 3
    ensures x < 0x1_0000_0000 ==> |d| <= 4
  {
    if x < 256 then [x as byte]
    else
      var high := ToBigEndian(x / 256);
      var low := (x % 256) as byte;
      BigEndianSnoc(high, low);
      high + [low]
  }

  /** The DER header of a SEQUENCE of the given length: 0x30, then the short form below 128
      and the minimal long form from there on. */
  function EncodeHeader(length: nat): (e: seq<byte>)
    requires length < LengthLimit
    ensures 2 <= |e| <= 6
  {
    if length < 0x80 then [SequenceTag, length as byte]
    else
      var d := ToBigEndian(length);
      [SequenceTag, (0x80 + |d|) as byte] + d
  }

  /** One complete LDAP message as it travels on the wire. */
  function EncodeFrame(payload: seq<byte>): (e: seq<byte>)
    requires |payload| < LengthLimit
    ensures |e| == |EncodeHeader(|payload|)| + |payload|
  {
    EncodeHeader(|payload|) + payload
  }

  // ---------------------------------------------------------------------------------------
  // Big-endian arithmetic

  lemma {:induction false} BigEndianPrefix(d: seq<byte>, j: nat)
    requires j <= |d|
    ensures BigEndian(d[..j]) <= BigEndian(d)
    decreases |d|
  {
    if j < |d| {
      assert d[..|d| - 1][..j] == d[..j];
      BigEndianPrefix(d[..|d| - 1], j);
    } else {
      assert d[..j] == d;
    }
  }

  lemma BigEndianStep(s: seq<byte>, start: nat, k: nat)
    requires start <= k < |s|
    ensures BigEndian(s[start..k + 1]) == BigEndian(s[start..k]) * 256 + s[k] as int
  {
    assert s[start..k + 1][..k - start] == s[start..k];
  }

  /**
    The central step: once the first length octet is known to be non-zero (`acc > 0`), the
    length loop succeeds exactly when all octets are there and the value stays below 2^31,
    and it then yields their big-endian value.
  */
  lemma {:induction false} LongLengthDecoded(s: seq<byte>, start: nat, k: nat, n: nat, acc: int)
    requires start < k <= |s|
    requires acc == BigEndian(s[start..k]) && 0 < acc < LengthLimit
    ensures var r := LongLength(s, k, n, acc);
      r.Decoded? <==> k + n <= |s| && BigEndian(s[start..k + n]) < LengthLimit
    ensures var r := LongLength(s, k, n, acc);
      r.Decoded? ==> r.value == BigEndian(s[start..k + n]) && r.end == k + n
    decreases n
  {
    if n == 0 {
    } else if k == |s| {
    } else if acc >= ShiftLimit {
      BigEndianStep(s, start, k);
      if k + n <= |s| {
        assert s[start..k + n][..k + 1 - start] == s[start..k + 1];
        BigEndianPrefix(s[start..k + n], k + 1 - start);
      }
    } else {
      BigEndianStep(s, start, k);
      LongLengthDecoded(s, start, k + 1, n - 1, acc * 256 + s[k] as int);
    }
  }

  // ---------------------------------------------------------------------------------------
  // Properties of readTagAndLength

  /** A leading byte other than 0x30 is the panic outcome and nothing more is read; every
      accepted header is a universal constructed SEQUENCE. */
  lemma LeadingByte(s: seq<byte>)
    ensures ParseHeader(s).HeaderError? && ParseHeader(s).error.UnexpectedTag?
            <==> |s| > 0 && s[0] != SequenceTag
    ensures |s| > 0 && s[0] != SequenceTag ==>
              ParseHeader(s) == HeaderError(UnexpectedTag(s[0]), 1) &&
              ParseFrame(s) == FrameError(UnexpectedTag(s[0]), 1)
    ensures ParseHeader(s).Header? ==>
              var tl := ParseHeader(s).tl;
              tl.Class == 0 && tl.IsCompound && tl.Tag == 16 && s[0] == SequenceTag
  {
    if ParseHeader(s).Header? {
      assert s[0] == SequenceTag;
    }
  }

  /** A length octet with the high bit clear is the length itself, and the header is two bytes. */
  lemma ShortForm(s: seq<byte>)
    requires |s| >= 2 && s[0] == SequenceTag && !HighBit(s[1])
    ensures ParseHeader(s) == Header(SequenceHeader(s[1] as int), 2)
  {
  }

  /** A length octet of exactly 0x80 is the indefinite-length error, with no length octet read
      after it; no other input gives that error. */
  lemma IndefiniteLengthRejected(s: seq<byte>)
    ensures |s| >= 2 && s[0] == SequenceTag && s[1] == 0x80 ==>
              ParseHeader(s) == HeaderError(IndefiniteLength, 2)
    ensures ParseHeader(s).HeaderError? && ParseHeader(s).error == IndefiniteLength ==>
              |s| >= 2 && s[0] == SequenceTag && s[1] == 0x80 && ParseHeader(s).consumed == 2
  {
    var h := ParseHeader(s);
    if h.HeaderError? && h.error == IndefiniteLength {
      assert |s| >= 2 && s[0] == SequenceTag && HighBit(s[1]);
    }
  }

  /** A long-form length is the big-endian value of the LowBits(b) octets after it; its first
      octet is non-zero; the header is 2 + LowBits(b) bytes. */
  lemma LongForm(s: seq<byte>)
    requires |s| >= 2 && s[0] == SequenceTag && HighBit(s[1])
    requires ParseHeader(s).Header?
    ensures var n := LowBits(s[1]);
      n > 0 && ParseHeader(s).size == 2 + n && s[2] != 0 &&
      ParseHeader(s).tl == SequenceHeader(BigEndian(s[2..2 + n]))
  {
    HeaderAccepted(s, ParseHeader(s).tl.Length, ParseHeader(s).size);
  }

  /** A zero first long-form length octet is rejected right after that octet. */
  lemma LeadingZerosRejected(s: seq<byte>)
    requires |s| >= 3 && s[0] == SequenceTag && HighBit(s[1]) && s[1] != 0x80 && s[2] == 0
    ensures ParseHeader(s) == HeaderError(LeadingZeros, 3)
  {
  }

  /** "length too large" comes only after the octet that met the guard has been consumed, and
      only when the length accumulated before that octet was at least 2^23, which takes at
      least three octets. */
  lemma {:induction false} TooLargeAfterGuard(s: seq<byte>)
    requires ParseHeader(s).HeaderError? && ParseHeader(s).error == LengthTooLarge
    ensures var c := ParseHeader(s).consumed;
      6 <= c <= |s| && HighBit(s[1]) && c <= 2 + LowBits(s[1]) &&
      BigEndian(s[2..c - 1]) >= ShiftLimit
  {
    assert |s| >= 3 && s[0] == SequenceTag && HighBit(s[1]);
    var n := LowBits(s[1]);
    assert n > 0 && s[2] != 0;
    assert BigEndian(s[2..3]) == s[2] as int by { assert s[2..3][..0] == []; }
    TooLargeLoop(s, 2, 3, n - 1, s[2] as int);
    BigEndianTwoOctets(s[2..ParseHeader(s).consumed - 1]);
  }

  lemma {:induction false} TooLargeLoop(s: seq<byte>, start: nat, k: nat, n: nat, acc: int)
    requires start < k <= |s|
    requires acc == BigEndian(s[start..k]) && 0 < acc
    requires LongLength(s, k, n, acc).Rejected? && LongLength(s, k, n, acc).error == LengthTooLarge
    ensures var c := LongLength(s, k, n, acc).consumed;
      k < c <= k + n && c <= |s| && BigEndian(s[start..c - 1]) >= ShiftLimit
    decreases n
  {
    if acc >= ShiftLimit {
    } else {
      BigEndianStep(s, start, k);
      TooLargeLoop(s, start, k + 1, n - 1, acc * 256 + s[k] as int);
    }
  }

  /** Two octets or fewer never reach the 2^23 guard. */
  lemma BigEndianTwoOctets(d: seq<byte>)
    ensures |d| <= 2 ==> BigEndian(d) < 0x1_0000
  {
    if 0 < |d| <= 2 {
      assert BigEndian(d[..|d| - 1]) < 0x100 by {
        if |d| == 2 {
          assert d[..1][..0] == [];
        }
      }
    }
  }

  /** The converse of TooLargeLoop: when the accumulated length first reaches 2^23 after the
      octets s[start..t], and octet s[t] is still to be read, the loop fails with "length too
      large" right after reading s[t]. */
  lemma {:induction false} GuardTripsLoop(s: seq<byte>, start: nat, k: nat, n: nat, acc: int, t: nat)
    requires start < k <= t < |s| && t < k + n
    requires acc == BigEndian(s[start..k]) && 0 < acc
    requires BigEndian(s[start..t]) >= ShiftLimit
    requires forall i :: k <= i < t ==> BigEndian(s[start..i]) < ShiftLimit
    ensures LongLength(s, k, n, acc) == Rejected(LengthTooLarge, t + 1)
    decreases n
  {
    if k < t {
      assert BigEndian(s[start..k]) < ShiftLimit;
      BigEndianStep(s, start, k);
      GuardTripsLoop(s, start, k + 1, n - 1, acc * 256 + s[k] as int, t);
    }
  }

  /** The guard fires: when the first j long-form length octets add up to 2^23 or more for the
      first time and one more octet is announced and present, readTagAndLength fails with
      "length too large" right after reading that octet. */
  lemma TooLargeWhenGuardTrips(s: seq<byte>, j: nat)
    requires |s| >= 3 && s[0] == SequenceTag && HighBit(s[1]) && s[2] != 0
    requires 0 < j < LowBits(s[1]) && 2 + j < |s|
    requires BigEndian(s[2..2 + j]) >= ShiftLimit
    requires forall i :: 3 <= i < 2 + j ==> BigEndian(s[2..i]) < ShiftLimit
    ensures ParseHeader(s) == HeaderError(LengthTooLarge, 3 + j)
  {
    assert BigEndian(s[2..3]) == s[2] as int by { assert s[2..3][..0] == []; }
    GuardTripsLoop(s, 2, 3, LowBits(s[1]) - 1, s[2] as int, 2 + j);
  }

  /** readTagAndLength accepts exactly the well-formed headers (both directions), so every
      accepted length is below 2^31. */
  lemma HeaderAccepted(s: seq<byte>, length: int, size: nat)
    ensures ParseHeader(s) == Header(SequenceHeader(length), size) <==> WellFormedHeader(s, length, size)
    ensures ParseHeader(s).Header? ==> ParseHeader(s).tl.Length < LengthLimit
  {
    if |s| < 2 || s[0] != SequenceTag {
    } else if !HighBit(s[1]) {
      assert LowBits(s[1]) == s[1] as int;
    } else {
      LongHeaderAccepted(s, length, size);
    }
  }

  lemma LongHeaderAccepted(s: seq<byte>, length: int, size: nat)
    requires |s| >= 2 && s[0] == SequenceTag && HighBit(s[1])
    ensures ParseHeader(s) == Header(SequenceHeader(length), size) <==> WellFormedHeader(s, length, size)
    ensures ParseHeader(s).Header? ==> ParseHeader(s).tl.Length < LengthLimit
  {
    var n := LowBits(s[1]);
    if n == 0 || |s| == 2 || s[2] == 0 {
      assert ParseHeader(s).HeaderError?;
      assert !WellFormedHeader(s, length, size);
    } else {
      var r := LongLength(s, 2, n, 0);
      LongLengthFirstOctet(s, n);
      LengthOfHeader(s, n, r);
      if r.Decoded? {
        assert WellFormedHeader(s, length, size) <==> length == r.value && size == r.end;
      } else {
        assert !WellFormedHeader(s, length, size);
      }
    }
  }

  lemma LongLengthFirstOctet(s: seq<byte>, n: nat)
    requires |s| >= 3 && s[2] != 0 && n > 0
    ensures var r := LongLength(s, 2, n, 0);
      r.Decoded? <==> 2 + n <= |s| && BigEndian(s[2..2 + n]) < LengthLimit
    ensures var r := LongLength(s, 2, n, 0);
      r.Decoded? ==> r.value == BigEndian(s[2..2 + n]) && r.end == 2 + n
  {
    assert LongLength(s, 2, n, 0) == LongLength(s, 3, n - 1, s[2] as int);
    assert BigEndian(s[2..3]) == s[2] as int by { assert s[2..3][..0] == []; }
    LongLengthDecoded(s, 2, 3, n - 1, s[2] as int);
  }

  lemma LengthOfHeader(s: seq<byte>, n: nat, r: LengthOutcome)
    requires |s| >= 3 && s[0] == SequenceTag && HighBit(s[1]) && n == LowBits(s[1]) && n > 0
    requires r == LongLength(s, 2, n, 0)
    ensures r.Decoded? ==> ParseHeader(s) == Header(SequenceHeader(r.value), r.end)
    ensures r.Rejected? ==> ParseHeader(s).HeaderError?
  {
  }

  /** A long-form encoding without leading zeros is accepted exactly when its value is below
      2^31. It need not be minimal: 0x81 0x05 is accepted as length 5. */
  lemma LongFormAcceptedIff(d: seq<byte>, rest: seq<byte>)
    requires 0 < |d| < 0x80 && d[0] != 0
    ensures var s := [SequenceTag, (0x80 + |d|) as byte] + d + rest;
      ParseHeader(s).Header? <==> BigEndian(d) < LengthLimit
    ensures var s := [SequenceTag, (0x80 + |d|) as byte] + d + rest;
      ParseHeader(s).Header? ==> ParseHeader(s) == Header(SequenceHeader(BigEndian(d)), 2 + |d|)
  {
    var s := [SequenceTag, (0x80 + |d|) as byte] + d + rest;
    assert s[2..2 + |d|] == d && s[2] == d[0];
    LengthOctetCount(|d|);
    HeaderAccepted(s, BigEndian(d), 2 + |d|);
    if ParseHeader(s).Header? {
      LongForm(s);
    }
  }

  /** The guard is checked before each shift, so it bounds the length only at 2^31: three
      octets reach 2^23 and four octets reach 2^31 - 1. */
  lemma WideLengthsAccepted(rest: seq<byte>)
    ensures ParseHeader([SequenceTag, 0x83, 0x80, 0, 0] + rest) == Header(SequenceHeader(0x80_0000), 5)
    ensures ParseHeader([SequenceTag, 0x84, 0x7f, 0xff, 0xff, 0xff] + rest) ==
            Header(SequenceHeader(0x7fff_ffff), 6)
  {
    var d3: seq<byte> := [0x80, 0, 0];
    var d4: seq<byte> := [0x7f, 0xff, 0xff, 0xff];
    assert BigEndian(d3) == 0x80_0000 by {
      BigEndianSnoc([], 0x80);
      BigEndianSnoc([0x80], 0);
      BigEndianSnoc([0x80, 0], 0);
      assert [0x80, 0] + [0] == d3;
    }
    assert BigEndian(d4) == 0x7fff_ffff by {
      BigEndianSnoc([], 0x7f);
      BigEndianSnoc([0x7f], 0xff);
      BigEndianSnoc([0x7f, 0xff], 0xff);
      BigEndianSnoc([0x7f, 0xff, 0xff], 0xff);
      assert [0x7f, 0xff, 0xff] + [0xff] == d4;
    }
    LongFormAcceptedIff(d3, rest);
    LongFormAcceptedIff(d4, rest);
    assert [SequenceTag, (0x80 + |d3|) as byte] + d3 + rest == [SequenceTag, 0x83, 0x80, 0, 0] + rest;
    assert [SequenceTag, (0x80 + |d4|) as byte] + d4 + rest == [SequenceTag, 0x84, 0x7f, 0xff, 0xff, 0xff] + rest;
  }

  /** Decoding inverts encoding: the DER header of any length below 2^31 is read back as that
      length, whatever follows it. */
  lemma HeaderRoundTrip(length: nat, rest: seq<byte>)
    requires length < LengthLimit
    ensures ParseHeader(EncodeHeader(length) + rest) ==
            Header(SequenceHeader(length), |EncodeHeader(length)|)
  {
    var e := EncodeHeader(length);
    if length >= 0x80 {
      var d := ToBigEndian(length);
      LongFormAcceptedIff(d, rest);
      assert e + rest == [SequenceTag, (0x80 + |d|) as byte] + d + rest;
    } else {
      ShortForm(e + rest);
    }
  }

  // ---------------------------------------------------------------------------------------
  // Properties of readLdapMessageBytes

  /** An accepted header is followed by exactly Length payload bytes in read order; when the
      whole payload is there the frame is exactly the consumed prefix of the stream. */
  lemma FrameComposition(s: seq<byte>)
    requires ParseHeader(s).Header?
    ensures var h := ParseHeader(s); var f := ParseFrame(s);
      f.Frame? && f.tl == h.tl && |f.bytes| == h.size + h.tl.Length &&
      f.bytes[..h.size] == s[..h.size]
    ensures var h := ParseHeader(s); var f := ParseFrame(s);
      h.size + h.tl.Length <= |s| ==> f.bytes == s[..h.size + h.tl.Length] && f.consumed == |f.bytes|
  {
  }

  /** The frame readLdapMessageBytes builds once the header of `size` bytes is read: `arrived`
      payload bytes from the stream, then the zero padding up to Length. */
  lemma FrameOfHeader(s: seq<byte>, tl: TagAndLength, size: nat, arrived: nat)
    requires ParseHeader(s) == Header(tl, size) && arrived == Min(tl.Length, |s| - size)
    ensures size + arrived <= |s| && arrived <= tl.Length
    ensures ParseFrame(s) == Frame(tl, s[..size] + s[size..][..arrived] + Zeros(tl.Length - arrived), size + arrived)
  {
    assert s[..size] + s[size..][..arrived] == s[..size + arrived];
  }

  /** The frame is the consumed prefix of the stream followed by zeros, and it is padded only
      when the stream ran out. */
  lemma FrameContents(s: seq<byte>)
    requires ParseFrame(s).Frame?
    ensures var f := ParseFrame(s);
      f.consumed <= |f.bytes| && f.bytes == s[..f.consumed] + Zeros(|f.bytes| - f.consumed) &&
      (f.consumed < |f.bytes| ==> f.consumed == |s|)
  {
  }

  /** A short-form frame: 0x30 0x05 and five payload bytes give a seven-byte frame of length 5. */
  lemma FiveBytePayload(payload: seq<byte>, rest: seq<byte>)
    requires |payload| == 5
    ensures var f := ParseFrame([0x30, 0x05] + payload + rest);
      f == Frame(SequenceHeader(5), [0x30, 0x05] + payload, 7)
  {
    var s := [0x30, 0x05] + payload + rest;
    ShortForm(s);
    assert s[..7] == [0x30, 0x05] + payload;
  }

  /** A truncated payload is padded with zeros up to Length and still returned as a frame. */
  lemma TruncatedPayloadPadded(s: seq<byte>)
    requires ParseHeader(s).Header?
    requires ParseHeader(s).size + ParseHeader(s).tl.Length > |s|
    ensures var f := ParseFrame(s);
      f.Frame? && f.consumed == |s| &&
      f.bytes == s + Zeros(ParseHeader(s).size + ParseHeader(s).tl.Length - |s|)
  {
    FrameComposition(s);
    FrameContents(s);
    assert s[..|s|] == s;
  }

  /** Reading a message off a stream that starts with an encoded message returns exactly that
      message's bytes and consumes exactly them. */
  lemma FrameRoundTrip(payload: seq<byte>, rest: seq<byte>)
    requires |payload| < LengthLimit
    ensures ParseFrame(EncodeFrame(payload) + rest) ==
            Frame(SequenceHeader(|payload|), EncodeFrame(payload), |EncodeFrame(payload)|)
  {
    var h := EncodeHeader(|payload|);
    var s := EncodeFrame(payload) + rest;
    assert s == h + (payload + rest);
    HeaderRoundTrip(|payload|, payload + rest);
    assert s[..|h| + |payload|] == EncodeFrame(payload);
  }
}
