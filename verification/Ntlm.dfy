/** The NTLM authenticate message (MS-NLMP section 2.2.1.3): a fixed header whose descriptors point
    at payloads that follow it. Offsets are rounded up to even numbers; the payloads are written
    one after the other without padding. */
module Ntlm {
  import opened Bytes

  const HEADER_SIZE := 64
  const NEGOTIATE_UNICODE := 0x1
  const NEGOTIATE_OEM := 0x2
  const NEGOTIATE_NTLM := 0x200

  /** A UTF-16 code unit. */
  newtype Unit = u: int | 0 <= u < 0x1_0000

  /** `toLatin1`: what does not fit a byte becomes a question mark. */
  function Latin1(s: seq<Unit>): seq<Byte> {
    if s == [] then []
    else Latin1(s[..|s| - 1]) + [if s[|s| - 1] < 256 then s[|s| - 1] as Byte else 63]
  }

  function Utf16(s: seq<Unit>): seq<Byte> {
    if s == [] then [] else Utf16(s[..|s| - 1]) + LittleEndian16(s[|s| - 1] as int)
  }

  /** The bytes of a string on the wire. */
  function Wire(s: seq<Unit>, unicode: bool): seq<Byte> {
    if unicode then Utf16(s) else Latin1(s)
  }

  lemma {:induction false} WireSize(s: seq<Unit>, unicode: bool)
    ensures |Wire(s, unicode)| == if unicode then 2 * |s| else |s|
  {
    if s != [] {
      WireSize(s[..|s| - 1], unicode);
    }
  }

  function Even(n: int): int {
    n + n % 2
  }

  /** `QNtlmBuffer`, as a value. */
  datatype Descriptor = Descriptor(len: int, maxLen: int, offset: int)

  class QNtlmBuffer {
    var len: int
    var maxLen: int
    var offset: int

    function Value(): Descriptor
      reads this
    {
      Descriptor(len, maxLen, offset)
    }

    constructor ()
      ensures Value() == Descriptor(0, 0, 0)
    {
      len, maxLen, offset := 0, 0, 0;
    }

    /** Describes a payload that is to follow what ends at `after`; the length is a 16-bit field. */
    method EncodeBuffer(after: nat, s: seq<Byte>) returns (end: nat)
      modifies this
      ensures Value() == Describe(after, |s|) && end == offset + len
      ensures offset % 2 == 0 && after <= offset <= after + 1
    {
      len := |s| % TWO_16;
      maxLen := len;
      offset := (after + 1) / 2 * 2;
      end := offset + len;
    }

    method EncodeString(after: nat, s: seq<Unit>, unicode: bool) returns (end: nat)
      modifies this
      ensures Value() == Describe(after, |Wire(s, unicode)|) && end == offset + len
    {
      WireSize(s, unicode);
      if !unicode {
        end := EncodeBuffer(after, Latin1(s));
        return;
      }
      len := 2 * |s| % TWO_16;
      maxLen := len;
      offset := (after + 1) / 2 * 2;
      end := offset + len;
    }
  }

  function Describe(after: int, size: nat): Descriptor {
    Descriptor(size % TWO_16, size % TWO_16, Even(after))
  }

  /** The offset of payload `i` as the descriptors have it. */
  function OffsetOf(payloads: seq<seq<Byte>>, i: nat): nat
    requires i <= |payloads|
  {
    if i == 0 then HEADER_SIZE else Even(OffsetOf(payloads, i - 1) + |payloads[i - 1]| % TWO_16)
  }

  /** Where payload `i` really starts. */
  function StartOf(payloads: seq<seq<Byte>>, i: nat): nat
    requires i <= |payloads|
  {
    if i == 0 then HEADER_SIZE else StartOf(payloads, i - 1) + |payloads[i - 1]|
  }

  function OddBefore(payloads: seq<seq<Byte>>, i: nat): nat
    requires i <= |payloads|
  {
    if i == 0 then 0 else OddBefore(payloads, i - 1) + |payloads[i - 1]| % 2
  }

  ghost predicate FitsLengths(payloads: seq<seq<Byte>>) {
    forall i :: 0 <= i < |payloads| ==> |payloads[i]| < TWO_16
  }

  /** Every payload of odd length moves the offsets behind it one further off. */
  lemma {:induction false} OffsetsDrift(payloads: seq<seq<Byte>>, i: nat)
    requires i <= |payloads| && FitsLengths(payloads)
    ensures OffsetOf(payloads, i) == StartOf(payloads, i) + OddBefore(payloads, i)
    ensures OffsetOf(payloads, i) % 2 == 0
    ensures StartOf(payloads, i) <= HEADER_SIZE + i * TWO_16 && OddBefore(payloads, i) <= i
  {
    if i > 0 {
      OffsetsDrift(payloads, i - 1);
      EvenSum(OffsetOf(payloads, i - 1), |payloads[i - 1]|);
    }
  }

  lemma EvenSum(a: nat, b: nat)
    requires a % 2 == 0
    ensures Even(a + b) == a + b + b % 2 && Even(a + b) % 2 == 0
    ensures b < TWO_16 ==> b % TWO_16 == b
  {
  }

  function Concat(payloads: seq<seq<Byte>>): seq<Byte> {
    if payloads == [] then [] else Concat(payloads[..|payloads| - 1]) + payloads[|payloads| - 1]
  }

  lemma {:induction false} ConcatSlice(payloads: seq<seq<Byte>>, i: nat)
    requires i < |payloads|
    ensures HEADER_SIZE <= StartOf(payloads, i)
    ensures StartOf(payloads, |payloads|) == HEADER_SIZE + |Concat(payloads)|
    ensures StartOf(payloads, i) + |payloads[i]| <= HEADER_SIZE + |Concat(payloads)|
    ensures var a := StartOf(payloads, i) - HEADER_SIZE;
            Concat(payloads)[a..a + |payloads[i]|] == payloads[i]
    decreases |payloads|
  {
    hide Concat, StartOf;
    var n := |payloads| - 1;
    StartOfPrefix(payloads, n, i);
    StartOfPrefix(payloads, n, n);
    StartStep(payloads, n);
    ConcatLast(payloads);
    var front, last := Concat(payloads[..n]), payloads[n];
    if n == 0 {
      assert payloads[..n] == [];
      NothingConcat();
    } else {
      ConcatSlice(payloads[..n], if i < n then i else n - 1);
    }
    var a := StartOf(payloads, i) - HEADER_SIZE;
    SliceOf(front, last, a, a + |payloads[i]|);
  }

  lemma StartStep(payloads: seq<seq<Byte>>, i: nat)
    requires i < |payloads|
    ensures StartOf(payloads, 0) == HEADER_SIZE && StartOf(payloads, i + 1) == StartOf(payloads, i) + |payloads[i]|
  {
  }

  lemma SliceOf(front: seq<Byte>, last: seq<Byte>, a: nat, b: nat)
    requires a <= b
    ensures b <= |front| ==> (front + last)[a..b] == front[a..b]
    ensures a == |front| && b == |front| + |last| ==> (front + last)[a..b] == last
  {
  }

  lemma NothingConcat()
    ensures Concat([]) == []
  {
  }

  lemma {:induction false} StartOfPrefix(payloads: seq<seq<Byte>>, n: nat, i: nat)
    requires i <= n <= |payloads|
    ensures StartOf(payloads[..n], i) == StartOf(payloads, i) >= HEADER_SIZE
  {
    if i > 0 {
      StartOfPrefix(payloads, n, i - 1);
    }
  }

  // ---- The message -------------------------------------------------------------------------------

  function WriteDescriptor(d: Descriptor): seq<Byte>
    requires 0 <= d.len < TWO_16 && 0 <= d.maxLen < TWO_16 && 0 <= d.offset < TWO_32
  {
    LittleEndian16(d.len) + LittleEndian16(d.maxLen) + LittleEndian32(d.offset)
  }

  /** What a reader finds through the descriptor at byte `at`, or nothing when it points outside. */
  datatype Found = Outside | Field(bytes: seq<Byte>)

  function ReadField(message: seq<Byte>, at: nat): Found
    requires at + 8 <= |message|
  {
    var len := ReadLittleEndian16(message[at..at + 2]);
    var offset := ReadLittleEndian32(message[at + 4..at + 8]);
    if offset + len <= |message| then Field(message[offset..offset + len]) else Outside
  }

  /** Payloads are laid out as domain, user, workstation, LM response, NTLM response; the header has
      the descriptors of the two responses first. */
  function SlotOf(i: nat): nat
    requires i < 5
  {
    if i < 3 then 28 + 8 * i else 12 + 8 * (i - 3)
  }

  /** The header's descriptor of payload `i`. */
  ghost predicate HasDescriptor(header: seq<Byte>, payloads: seq<seq<Byte>>, i: nat)
    requires i < 5 == |payloads| && |header| == HEADER_SIZE
  {
    && OffsetOf(payloads, i) < TWO_32
    && header[SlotOf(i)..SlotOf(i) + 8] ==
       WriteDescriptor(For(payloads, i))
  }

  ghost predicate IsHeader(header: seq<Byte>, payloads: seq<seq<Byte>>) {
    && |header| == HEADER_SIZE && |payloads| == 5
    && HasDescriptor(header, payloads, 0) && HasDescriptor(header, payloads, 1) && HasDescriptor(header, payloads, 2)
    && HasDescriptor(header, payloads, 3) && HasDescriptor(header, payloads, 4)
  }

  /** Through its descriptor each payload is found exactly where it is, if no payload before it has an
      odd length; otherwise the descriptor points behind the payload's start. */
  lemma DescriptorsSelectPayloads(header: seq<Byte>, payloads: seq<seq<Byte>>, i: nat)
    requires |header| == HEADER_SIZE && |payloads| == 5 && i < 5
    requires HasDescriptor(header, payloads, i) && FitsLengths(payloads)
    ensures OffsetOf(payloads, i) == StartOf(payloads, i) <==> OddBefore(payloads, i) == 0
    ensures OddBefore(payloads, i) == 0 ==> ReadField(header + Concat(payloads), SlotOf(i)) == Field(payloads[i])
  {
    hide OffsetOf, StartOf, OddBefore, Concat, WriteDescriptor, ReadField;
    OffsetsDrift(payloads, i);
    EvenSum(0, |payloads[i]|);
    if OddBefore(payloads, i) == 0 {
      ConcatSlice(payloads, i);
      ReadBack(header, Concat(payloads), SlotOf(i), StartOf(payloads, i), payloads[i]);
    }
  }

  /** Reading through a descriptor that points at a payload. */
  lemma ReadBack(header: seq<Byte>, rest: seq<Byte>, at: nat, start: nat, payload: seq<Byte>)
    requires |header| == HEADER_SIZE && at + 8 <= HEADER_SIZE <= start < TWO_32 && |payload| < TWO_16
    requires header[at..at + 8] == WriteDescriptor(Descriptor(|payload|, |payload|, start))
    requires start + |payload| <= HEADER_SIZE + |rest|
    requires rest[start - HEADER_SIZE..start - HEADER_SIZE + |payload|] == payload
    ensures ReadField(header + rest, at) == Field(payload)
  {
    hide WriteDescriptor;
    DescriptorRoundTrip(header, rest, at, Descriptor(|payload|, |payload|, start));
    assert (header + rest)[start..start + |payload|] == rest[start - HEADER_SIZE..start - HEADER_SIZE + |payload|];
  }

  lemma DescriptorRoundTrip(header: seq<Byte>, rest: seq<Byte>, at: nat, d: Descriptor)
    requires at + 8 <= |header| && 0 <= d.len < TWO_16 && 0 <= d.maxLen < TWO_16 && 0 <= d.offset < TWO_32
    requires header[at..at + 8] == WriteDescriptor(d)
    ensures ReadLittleEndian16((header + rest)[at..at + 2]) == d.len
    ensures ReadLittleEndian32((header + rest)[at + 4..at + 8]) == d.offset
  {
    LittleEndian16RoundTrip(d.len);
    LittleEndianRoundTrip(d.offset);
    hide ReadLittleEndian16, ReadLittleEndian32, Digit;
    assert (header + rest)[at..at + 2] == header[at..at + 8][..2] == LittleEndian16(d.len);
    assert (header + rest)[at + 4..at + 8] == header[at..at + 8][4..] == LittleEndian32(d.offset);
  }

  /** Unicode strings, and byte strings of even length, never move a descriptor off its payload. */
  lemma {:induction false} EvenPayloads(payloads: seq<seq<Byte>>, i: nat)
    requires i <= |payloads| && forall k :: 0 <= k < i ==> |payloads[k]| % 2 == 0
    ensures OddBefore(payloads, i) == 0
  {
    if i > 0 {
      EvenPayloads(payloads, i - 1);
    }
  }

  /** The payloads in the order in which they are laid out. */
  function Payloads(domain: seq<Unit>, user: seq<Unit>, workstation: seq<Unit>, lm: seq<Byte>, ntlm: seq<Byte>,
                    unicode: bool): seq<seq<Byte>> {
    [Wire(domain, unicode), Wire(user, unicode), Wire(workstation, unicode), lm, ntlm]
  }

  /** "NTLMSSP", the type, an empty session key, and the flags, byte by byte. */
  ghost predicate HasFixedFields(message: seq<Byte>, flags: int)
    requires 0 <= flags < TWO_32
  {
    && |message| >= HEADER_SIZE
    && message[..12] == [78, 84, 76, 77, 83, 83, 80, 0, 3, 0, 0, 0]
    && message[52..60] == [0, 0, 0, 0, 0, 0, 0, 0]
    && message[60..64] == [(flags % 256) as Byte, (flags / 256 % 256) as Byte, (flags / 65536 % 256) as Byte,
                           (flags / 16777216) as Byte]
  }

  lemma FixedFields(header: seq<Byte>, key: Descriptor, flags: int, rest: seq<Byte>, middle: seq<Byte>)
    requires 0 <= flags < TWO_32 && key == Descriptor(0, 0, 0) && |middle| == 40
    requires header == [78, 84, 76, 77, 83, 83, 80, 0] + LittleEndian32(3) + (middle + WriteDescriptor(key))
                       + LittleEndian32(flags)
    ensures HasFixedFields(header + rest, flags)
  {
    BytesOfWord(3);
    BytesOfWord(flags);
    BytesOfWord(0);
    hide LittleEndian32, LittleEndian16;
    assert WriteDescriptor(key) == [0, 0, 0, 0, 0, 0, 0, 0];
  }

  /** The bytes of a string by position: two for each character of a Unicode string, the low one first;
      otherwise one, a question mark for what does not fit. */
  lemma {:induction false} WireIs(s: seq<Unit>, unicode: bool, k: nat)
    requires k < |s|
    ensures |Wire(s, unicode)| == if unicode then 2 * |s| else |s|
    ensures unicode ==> Wire(s, unicode)[2 * k] as int == s[k] as int % 256
    ensures unicode ==> Wire(s, unicode)[2 * k + 1] as int == s[k] as int / 256
    ensures !unicode ==> Wire(s, unicode)[k] as int == if s[k] < 256 then s[k] as int else 63
  {
    var n := |s| - 1;
    WireSize(s, unicode);
    WireSize(s[..n], unicode);
    if k < n {
      WireIs(s[..n], unicode, k);
    } else {
      BytesOfWord(s[n] as int);
    }
  }

  /** A header that describes the payloads, and then the payloads. */
  ghost predicate IsMessage(message: seq<Byte>, payloads: seq<seq<Byte>>) {
    && |message| >= HEADER_SIZE && IsHeader(message[..HEADER_SIZE], payloads)
    && message == message[..HEADER_SIZE] + Concat(payloads)
  }

  /** Where the descriptor at byte `at` says that its payload starts. */
  function PointsAt(message: seq<Byte>, at: nat): int
    requires at + 8 <= |message|
  {
    ReadLittleEndian32(message[at + 4..at + 8])
  }

  /** Every descriptor says where its payload starts. */
  ghost predicate AllPointAtStarts(message: seq<Byte>, payloads: seq<seq<Byte>>) {
    && |message| >= HEADER_SIZE && |payloads| == 5
    && PointsAt(message, SlotOf(0)) == StartOf(payloads, 0) && PointsAt(message, SlotOf(1)) == StartOf(payloads, 1)
    && PointsAt(message, SlotOf(2)) == StartOf(payloads, 2) && PointsAt(message, SlotOf(3)) == StartOf(payloads, 3)
    && PointsAt(message, SlotOf(4)) == StartOf(payloads, 4)
  }

  predicate FirstFourEven(payloads: seq<seq<Byte>>)
    requires |payloads| == 5
  {
    |payloads[0]| % 2 == |payloads[1]| % 2 == |payloads[2]| % 2 == |payloads[3]| % 2 == 0
  }

  /** They all do if and only if the first four payloads have even length. */
  lemma PointAtStarts(message: seq<Byte>, payloads: seq<seq<Byte>>)
    requires IsMessage(message, payloads) && FitsLengths(payloads)
    ensures AllPointAtStarts(message, payloads) <==> FirstFourEven(payloads)
  {
    hide OffsetOf, StartOf, OddBefore, Concat, PointsAt, FitsLengths, HasDescriptor;
    PointsWhere(message, payloads, 0);
    PointsWhere(message, payloads, 1);
    PointsWhere(message, payloads, 2);
    PointsWhere(message, payloads, 3);
    PointsWhere(message, payloads, 4);
    OddBeforeSteps(payloads);
  }

  lemma PointsWhere(message: seq<Byte>, payloads: seq<seq<Byte>>, i: nat)
    requires |payloads| == 5 && i < 5 && FitsLengths(payloads)
    requires |message| >= HEADER_SIZE && HasDescriptor(message[..HEADER_SIZE], payloads, i)
    ensures PointsAt(message, SlotOf(i)) == StartOf(payloads, i) <==> OddBefore(payloads, i) == 0
  {
    hide OffsetOf, StartOf, OddBefore, WriteDescriptor;
    var header := message[..HEADER_SIZE];
    assert header + message[HEADER_SIZE..] == message;
    OffsetsDrift(payloads, i);
    DescriptorRoundTrip(header, message[HEADER_SIZE..], SlotOf(i), For(payloads, i));
  }

  lemma OddBeforeSteps(payloads: seq<seq<Byte>>)
    requires |payloads| == 5
    ensures OddBefore(payloads, 0) == 0
    ensures OddBefore(payloads, 1) == |payloads[0]| % 2
    ensures OddBefore(payloads, 2) == OddBefore(payloads, 1) + |payloads[1]| % 2
    ensures OddBefore(payloads, 3) == OddBefore(payloads, 2) + |payloads[2]| % 2
    ensures OddBefore(payloads, 4) == OddBefore(payloads, 3) + |payloads[3]| % 2
  {
  }

  /** A message that fails: after a domain of one byte, the server reads the first byte of the response
      in place of the user's name. */
  method OddDomain(domain: Unit, user: Unit, ntlm: seq<Byte>) returns (message: seq<Byte>)
    requires 0 < |ntlm| < TWO_16 && domain < 256 && user < 256
    ensures IsMessage(message, Payloads([domain], [user], [], [], ntlm, false))
    ensures ReadField(message, 36) == Field([ntlm[0]])
  {
    hide IsHeader, ReadField, Concat, Wire;
    message := Phase3([domain], [user], [], [], ntlm, false);
    OneByteName(domain);
    OneByteName(user);
    OddDomainRead(message, [[domain as Byte], [user as Byte], [], [], ntlm]);
  }

  lemma {:induction false} OneByteName(x: Unit)
    requires x < 256
    ensures Wire([x], false) == [x as Byte] && Wire([], false) == []
  {
    assert [x][..0] == [] && Latin1([]) == [];
    assert Latin1([x]) == Latin1([x][..0]) + [x as Byte];
  }

  lemma OddDomainRead(message: seq<Byte>, payloads: seq<seq<Byte>>)
    requires IsMessage(message, payloads) && |payloads[0]| == |payloads[1]| == 1 && payloads[2] == payloads[3] == []
    requires |payloads[4]| > 0
    ensures ReadField(message, 36) == Field([payloads[4][0]])
  {
    assert OffsetOf(payloads, 0) == HEADER_SIZE;
    assert OffsetOf(payloads, 1) == HEADER_SIZE + 2;
    hide WriteDescriptor, Concat, OffsetOf;
    ConcatFive(payloads);
    var header := message[..HEADER_SIZE];
    DescriptorRoundTrip(header, Concat(payloads), 36, For(payloads, 1));
    ThirdByte(header, payloads[0], payloads[1], payloads[4]);
  }

  lemma ThirdByte(header: seq<Byte>, a: seq<Byte>, b: seq<Byte>, e: seq<Byte>)
    requires |header| == HEADER_SIZE && |a| == |b| == 1 && |e| > 0
    ensures var s := header + ([] + a + b + [] + [] + e);
            |s| >= HEADER_SIZE + 3 && s[HEADER_SIZE + 2..HEADER_SIZE + 3] == [e[0]]
  {
    var s := header + ([] + a + b + [] + [] + e);
    assert s[HEADER_SIZE + 2] == e[0];
  }

  /** The authenticate message for already extracted credentials and responses. */
  method Phase3(domain: seq<Unit>, user: seq<Unit>, workstation: seq<Unit>, lm: seq<Byte>, ntlm: seq<Byte>,
                unicode: bool) returns (message: seq<Byte>)
    ensures IsMessage(message, Payloads(domain, user, workstation, lm, ntlm, unicode))
    ensures HasFixedFields(message, if unicode then 513 else 514)
    ensures FitsLengths(Payloads(domain, user, workstation, lm, ntlm, unicode))
            && (unicode || |domain| % 2 == |user| % 2 == |workstation| % 2 == 0) && |lm| % 2 == 0 ==>
              && ReadField(message, 28) == Field(Wire(domain, unicode))
              && ReadField(message, 36) == Field(Wire(user, unicode))
              && ReadField(message, 44) == Field(Wire(workstation, unicode))
              && ReadField(message, 12) == Field(lm)
              && ReadField(message, 20) == Field(ntlm)
    ensures var payloads := Payloads(domain, user, workstation, lm, ntlm, unicode);
            FitsLengths(payloads) ==>
              (AllPointAtStarts(message, payloads) <==>
               (unicode || |domain| % 2 == |user| % 2 == |workstation| % 2 == 0) && |lm| % 2 == 0)
  {
    var flags := NEGOTIATE_NTLM + if unicode then NEGOTIATE_UNICODE else NEGOTIATE_OEM;
    assert flags == (if unicode then 513 else 514) && 0 <= flags < TWO_32;
    hide *;
    var pb := new QNtlmPhase3Block();
    pb.Fill(domain, user, workstation, lm, ntlm, unicode);
    message := pb.Write(flags, unicode);
    if FitsLengths(Payloads(domain, user, workstation, lm, ntlm, unicode)) {
      MessageFinds(message, domain, user, workstation, lm, ntlm, unicode);
    }
  }

  lemma MessageFinds(message: seq<Byte>, domain: seq<Unit>, user: seq<Unit>, workstation: seq<Unit>, lm: seq<Byte>,
                     ntlm: seq<Byte>, unicode: bool)
    requires IsMessage(message, Payloads(domain, user, workstation, lm, ntlm, unicode))
    requires FitsLengths(Payloads(domain, user, workstation, lm, ntlm, unicode))
    ensures |message| >= HEADER_SIZE
    ensures var even := (unicode || |domain| % 2 == |user| % 2 == |workstation| % 2 == 0) && |lm| % 2 == 0;
            && (AllPointAtStarts(message, Payloads(domain, user, workstation, lm, ntlm, unicode)) <==> even)
            && (even ==>
                  && ReadField(message, 28) == Field(Wire(domain, unicode))
                  && ReadField(message, 36) == Field(Wire(user, unicode))
                  && ReadField(message, 44) == Field(Wire(workstation, unicode))
                  && ReadField(message, 12) == Field(lm)
                  && ReadField(message, 20) == Field(ntlm))
  {
    hide IsHeader, Concat, Wire, ReadField, FitsLengths, AllPointAtStarts;
    var payloads := Payloads(domain, user, workstation, lm, ntlm, unicode);
    WireSize(domain, unicode);
    WireSize(user, unicode);
    WireSize(workstation, unicode);
    PointAtStarts(message, payloads);
    if FirstFourEven(payloads) {
      AllPayloadsFound(message[..HEADER_SIZE], payloads);
    }
  }

  lemma AllPayloadsFound(header: seq<Byte>, payloads: seq<seq<Byte>>)
    requires IsHeader(header, payloads) && FitsLengths(payloads)
    requires FirstFourEven(payloads)
    ensures ReadField(header + Concat(payloads), 28) == Field(payloads[0])
    ensures ReadField(header + Concat(payloads), 36) == Field(payloads[1])
    ensures ReadField(header + Concat(payloads), 44) == Field(payloads[2])
    ensures ReadField(header + Concat(payloads), 12) == Field(payloads[3])
    ensures ReadField(header + Concat(payloads), 20) == Field(payloads[4])
  {
    hide FitsLengths, Concat, ReadField, OddBefore, HasDescriptor;
    EvenPayloads(payloads, 0);
    EvenPayloads(payloads, 1);
    EvenPayloads(payloads, 2);
    EvenPayloads(payloads, 3);
    EvenPayloads(payloads, 4);
    DescriptorsSelectPayloads(header, payloads, 0);
    DescriptorsSelectPayloads(header, payloads, 1);
    DescriptorsSelectPayloads(header, payloads, 2);
    DescriptorsSelectPayloads(header, payloads, 3);
    DescriptorsSelectPayloads(header, payloads, 4);
  }

  /** The descriptor that payload `i` gets. */
  function For(payloads: seq<seq<Byte>>, i: nat): Descriptor
    requires i < |payloads|
  {
    Descriptor(|payloads[i]| % TWO_16, |payloads[i]| % TWO_16, OffsetOf(payloads, i))
  }

  class QNtlmPhase3Block {
    var lmResponse: QNtlmBuffer
    var ntlmResponse: QNtlmBuffer
    var domain: QNtlmBuffer
    var user: QNtlmBuffer
    var workstation: QNtlmBuffer
    var sessionKey: QNtlmBuffer
    var domainStr: seq<Unit>
    var userStr: seq<Unit>
    var workstationStr: seq<Unit>
    var lmResponseBuf: seq<Byte>
    var ntlmResponseBuf: seq<Byte>

    ghost predicate Valid()
      reads this
    {
      && domain != user && domain != workstation && domain != lmResponse && domain != ntlmResponse
      && user != workstation && user != lmResponse && user != ntlmResponse
      && workstation != lmResponse && workstation != ntlmResponse && lmResponse != ntlmResponse
      && sessionKey !in {domain, user, workstation, lmResponse, ntlmResponse}
    }

    constructor ()
      ensures Valid() && fresh(domain) && fresh(user) && fresh(workstation) && fresh(lmResponse)
      ensures fresh(ntlmResponse) && fresh(sessionKey) && sessionKey.Value() == Descriptor(0, 0, 0)
    {
      lmResponse := new QNtlmBuffer();
      ntlmResponse := new QNtlmBuffer();
      domain := new QNtlmBuffer();
      user := new QNtlmBuffer();
      workstation := new QNtlmBuffer();
      sessionKey := new QNtlmBuffer();
      domainStr, userStr, workstationStr, lmResponseBuf, ntlmResponseBuf := [], [], [], [], [];
    }

    ghost predicate Describes(payloads: seq<seq<Byte>>)
      requires |payloads| == 5
      reads this, lmResponse, ntlmResponse, domain, user, workstation
    {
      && domain.Value() == For(payloads, 0) && user.Value() == For(payloads, 1)
      && workstation.Value() == For(payloads, 2) && lmResponse.Value() == For(payloads, 3)
      && ntlmResponse.Value() == For(payloads, 4)
    }

    /** Encodes the payloads one after the other. */
    method Fill(domainStr: seq<Unit>, userStr: seq<Unit>, workstationStr: seq<Unit>, lm: seq<Byte>, ntlm: seq<Byte>,
                unicode: bool)
      requires Valid()
      modifies this, lmResponse, ntlmResponse, domain, user, workstation
      ensures Valid() && Describes(Payloads(domainStr, userStr, workstationStr, lm, ntlm, unicode))
      ensures sessionKey == old(sessionKey) && sessionKey.Value() == old(sessionKey.Value())
      ensures this.domainStr == domainStr && this.userStr == userStr && this.workstationStr == workstationStr
      ensures lmResponseBuf == lm && ntlmResponseBuf == ntlm
    {
      hide OffsetOf, Wire, Even, Describe, For;
      DescriptorSteps(Payloads(domainStr, userStr, workstationStr, lm, ntlm, unicode));
      this.domainStr, this.userStr, this.workstationStr := domainStr, userStr, workstationStr;
      var offset := FillNames(unicode);
      lmResponseBuf := lm;
      offset := lmResponse.EncodeBuffer(offset, lm);
      ntlmResponseBuf := ntlm;
      offset := ntlmResponse.EncodeBuffer(offset, ntlm);
    }

    /** The three strings. */
    method FillNames(unicode: bool) returns (offset: nat)
      requires Valid()
      modifies domain, user, workstation
      ensures domain.Value() == Describe(HEADER_SIZE, |Wire(domainStr, unicode)|)
      ensures user.Value() == Describe(domain.offset + domain.len, |Wire(userStr, unicode)|)
      ensures workstation.Value() == Describe(user.offset + user.len, |Wire(workstationStr, unicode)|)
      ensures offset == workstation.offset + workstation.len
    {
      hide Wire, Even, Describe;
      offset := HEADER_SIZE;
      offset := domain.EncodeString(offset, domainStr, unicode);
      offset := user.EncodeString(offset, userStr, unicode);
      offset := workstation.EncodeString(offset, workstationStr, unicode);
    }

    /** The block on the wire: empty strings are left out, the others follow the header in order. */
    method Write(flags: int, unicode: bool) returns (message: seq<Byte>)
      requires Valid() && 0 <= flags < TWO_32
      requires Describes(Payloads(domainStr, userStr, workstationStr, lmResponseBuf, ntlmResponseBuf, unicode))
      requires sessionKey.Value() == Descriptor(0, 0, 0)
      ensures IsMessage(message, Payloads(domainStr, userStr, workstationStr, lmResponseBuf, ntlmResponseBuf, unicode))
      ensures HasFixedFields(message, flags)
    {
      hide OffsetOf, WriteDescriptor, Wire, Concat, IsHeader;
      ghost var payloads := Payloads(domainStr, userStr, workstationStr, lmResponseBuf, ntlmResponseBuf, unicode);
      OffsetSteps(payloads);
      var magic: seq<Byte> := [78, 84, 76, 77, 83, 83, 80, 0];
      var fields := [lmResponse.Value(), ntlmResponse.Value(), domain.Value(), user.Value(),
                     workstation.Value(), sessionKey.Value()];
      message := magic + LittleEndian32(3)
                 + (WriteDescriptor(fields[0]) + WriteDescriptor(fields[1]) + WriteDescriptor(fields[2])
                    + WriteDescriptor(fields[3]) + WriteDescriptor(fields[4]) + WriteDescriptor(fields[5]))
                 + LittleEndian32(flags);
      ghost var header := message;
      DescriptorSize(fields[5]);
      HeaderLayout(payloads, magic + LittleEndian32(3), WriteDescriptor(fields[5]) + LittleEndian32(flags), header);
      var rest := WritePayloads(unicode);
      message := message + rest;
      assert message[..HEADER_SIZE] == header;
      FixedFields(header, fields[5], flags, rest,
                  WriteDescriptor(fields[0]) + WriteDescriptor(fields[1]) + WriteDescriptor(fields[2])
                  + WriteDescriptor(fields[3]) + WriteDescriptor(fields[4]));
    }

    /** What follows the header. */
    method WritePayloads(unicode: bool) returns (out: seq<Byte>)
      ensures out == Concat(Payloads(domainStr, userStr, workstationStr, lmResponseBuf, ntlmResponseBuf, unicode))
    {
      hide Wire, Concat;
      NothingOnWire(unicode);
      ConcatFive(Payloads(domainStr, userStr, workstationStr, lmResponseBuf, ntlmResponseBuf, unicode));
      out := [];
      if domainStr != [] {
        out := out + Wire(domainStr, unicode);
      }
      out := out + Wire(userStr, unicode);
      if workstationStr != [] {
        out := out + Wire(workstationStr, unicode);
      }
      out := out + lmResponseBuf;
      out := out + ntlmResponseBuf;
    }
  }

  lemma NothingOnWire(unicode: bool)
    ensures Wire([], unicode) == []
  {
  }

  lemma ConcatFive(p: seq<seq<Byte>>)
    requires |p| == 5
    ensures Concat(p) == [] + p[0] + p[1] + p[2] + p[3] + p[4]
    ensures p[0] == [] ==> [] + p[0] == []
    ensures p[2] == [] ==> [] + p[0] + p[1] + p[2] == [] + p[0] + p[1]
  {
    assert Concat(p[..0]) == [];
    ConcatLast(p[..1]);
    ConcatLast(p[..2]);
    ConcatLast(p[..3]);
    ConcatLast(p[..4]);
    ConcatLast(p);
    assert p[..5] == p && p[..1][..0] == p[..0] && p[..2][..1] == p[..1] && p[..3][..2] == p[..2];
    assert p[..4][..3] == p[..3];
    hide Concat;
  }

  lemma ConcatLast(p: seq<seq<Byte>>)
    requires p != []
    ensures Concat(p) == Concat(p[..|p| - 1]) + p[|p| - 1]
  {
  }

  lemma DescriptorSize(d: Descriptor)
    requires 0 <= d.len < TWO_16 && 0 <= d.maxLen < TWO_16 && 0 <= d.offset < TWO_32
    ensures |WriteDescriptor(d)| == 8
  {
  }

  lemma FiveParts(front: seq<Byte>, a: seq<Byte>, b: seq<Byte>, c: seq<Byte>, d: seq<Byte>, e: seq<Byte>,
                  back: seq<Byte>)
    requires |front| == 12 && |a| == |b| == |c| == |d| == |e| == 8
    ensures var s := front + (a + b + c + d + e) + back;
            && |s| == 52 + |back|
            && s[12..20] == a && s[20..28] == b && s[28..36] == c && s[36..44] == d && s[44..52] == e
  {
  }

  /** Where the descriptors are in the header. */
  lemma HeaderLayout(payloads: seq<seq<Byte>>, front: seq<Byte>, back: seq<Byte>, header: seq<Byte>)
    requires |payloads| == 5 && |front| == 12 && |back| == 12
    requires forall i: nat :: i < 5 ==> OffsetOf(payloads, i) < TWO_32
    requires header == front + (WriteDescriptor(For(payloads, 3)) + WriteDescriptor(For(payloads, 4))
                                + WriteDescriptor(For(payloads, 0)) + WriteDescriptor(For(payloads, 1))
                                + WriteDescriptor(For(payloads, 2))) + back
    ensures IsHeader(header, payloads) && |header| == HEADER_SIZE
  {
    hide OffsetOf, WriteDescriptor;
    DescriptorSize(For(payloads, 0));
    DescriptorSize(For(payloads, 1));
    DescriptorSize(For(payloads, 2));
    DescriptorSize(For(payloads, 3));
    DescriptorSize(For(payloads, 4));
    FiveParts(front, WriteDescriptor(For(payloads, 3)), WriteDescriptor(For(payloads, 4)),
              WriteDescriptor(For(payloads, 0)), WriteDescriptor(For(payloads, 1)), WriteDescriptor(For(payloads,
                  2)), back);
  }

  /** The offsets one after the other. */
  lemma OffsetSteps(payloads: seq<seq<Byte>>)
    requires |payloads| == 5
    ensures OffsetOf(payloads, 0) == HEADER_SIZE == Even(HEADER_SIZE)
    ensures OffsetOf(payloads, 1) == Even(OffsetOf(payloads, 0) + |payloads[0]| % TWO_16)
    ensures OffsetOf(payloads, 2) == Even(OffsetOf(payloads, 1) + |payloads[1]| % TWO_16)
    ensures OffsetOf(payloads, 3) == Even(OffsetOf(payloads, 2) + |payloads[2]| % TWO_16)
    ensures OffsetOf(payloads, 4) == Even(OffsetOf(payloads, 3) + |payloads[3]| % TWO_16)
    ensures forall i: nat :: i < 5 ==> OffsetOf(payloads, i) < TWO_32
  {
    forall i: nat | i < 5 ensures OffsetOf(payloads, i) < TWO_32 {
      OffsetBound(payloads, i);
    }
  }

  /** Each descriptor follows from the one before. */
  lemma DescriptorSteps(payloads: seq<seq<Byte>>)
    requires |payloads| == 5
    ensures For(payloads, 0) == Describe(HEADER_SIZE, |payloads[0]|)
    ensures For(payloads, 1) == Describe(For(payloads, 0).offset + For(payloads, 0).len, |payloads[1]|)
    ensures For(payloads, 2) == Describe(For(payloads, 1).offset + For(payloads, 1).len, |payloads[2]|)
    ensures For(payloads, 3) == Describe(For(payloads, 2).offset + For(payloads, 2).len, |payloads[3]|)
    ensures For(payloads, 4) == Describe(For(payloads, 3).offset + For(payloads, 3).len, |payloads[4]|)
  {
    OffsetSteps(payloads);
    hide OffsetOf;
  }

  lemma {:induction false} OffsetBound(payloads: seq<seq<Byte>>, i: nat)
    requires i <= |payloads|
    ensures OffsetOf(payloads, i) <= HEADER_SIZE + i * TWO_16
  {
    if i > 0 {
      OffsetBound(payloads, i - 1);
    }
  }
}
