/**
 The ARINC 429 parity bit: bit 32 of the data word, chosen from the 31-bit
 payload (bits 1..31) so that the whole word has an odd number of one-bits
 (convention "odd") or an even number (convention "even").
 */
module A429ParityBit {
  import opened Bits
  import opened A429Exception

  datatype Option<+T> = None | Some(value: T)

  datatype Convention = Odd | Even

  /** The Python value a parity bit is constructed with: a string, or an integer such as 5 */
  datatype PyValue = PyStr(s: string) | PyInt(i: int)

  /** The number of payload bits: word bits 1..31 */
  const PayloadBits: nat := 31

  /** `1 << 31`: the word with only bit 32 set */
  const ParityMask: nat := 0x8000_0000

  /** The construction-time check: exactly the strings "odd" and "even" are conventions */
  function ParseConvention(v: PyValue): (r: Result<Convention>)
    ensures r == Ok(Odd) <==> v == PyStr("odd")
    ensures r == Ok(Even) <==> v == PyStr("even")
    ensures r.Err? ==> r.error == ConventionError
  {
    if v == PyStr("odd") then Ok(Odd)
    else if v == PyStr("even") then Ok(Even)
    else Err(ConventionError)
  }

  /** The number of one-bits among word bits 1..31 of the payload */
  function PayloadOnes(payload: int): (r: nat)
  {
    CountOnes(payload, PayloadBits)
  }

  /** The number of one-bits the convention asks the whole word to have, modulo 2 */
  function TargetParity(c: Convention): (r: nat)
  {
    if c == Odd then 1 else 0
  }

  /** What pack returns for a payload: `1 << 31` when bit 32 must be set, 0 otherwise */
  function ParityOf(c: Convention, payload: int): (r: nat)
    ensures r == 0 || r == ParityMask
  {
    if PayloadOnes(payload) % 2 == TargetParity(c) then 0 else ParityMask
  }

  // ---------------------------------------------------------------------------
  // Properties of the parity bit

  /** The two conventions always choose opposite parity bits */
  lemma ConventionsComplementary(payload: int)
    ensures ParityOf(Odd, payload) + ParityOf(Even, payload) == ParityMask
  {
  }

  /** For a 31-bit payload, the parity bit is the one and only bit 32 that gives the word the convention's parity */
  lemma ParityIsTheOnlyChoice(c: Convention, payload: int, b: nat)
    requires 0 <= payload < ParityMask && b <= 1
    ensures CountOnes(Or(payload, Shl(b, 31)), 32) % 2 == TargetParity(c)
            <==> Shl(b, 31) == ParityOf(c, payload)
  {
    var count := CountOnes(Or(payload, Shl(b, 31)), 32);
    var ones := PayloadOnes(payload);
    assert count == ones + b by {
      WordOnes(payload, b);
    }
    assert Shl(b, 31) == if b == 0 then 0 else ParityMask by {
      Pow2At31And32();
    }
    ParityOfSum(ones, b, TargetParity(c));
  }

  lemma ParityOfSum(ones: nat, b: nat, t: nat)
    requires b <= 1 && t <= 1
    ensures (ones + b) % 2 == t <==> (b == 0) == (ones % 2 == t)
  {
  }

  /** The one-bits of `payload | (b << 31)` are the payload's plus b */
  lemma WordOnes(payload: nat, b: nat)
    requires payload < ParityMask && b <= 1
    ensures CountOnes(Or(payload, Shl(b, 31)), 32) == PayloadOnes(payload) + b
  {
    Pow2At31And32();
    CountOnesOrHighBit(payload, PayloadBits, b);
  }

  /** `payload | pack()` has an odd number of one-bits under "odd" and an even number under "even" */
  lemma WordHasConventionParity(c: Convention, payload: int)
    requires 0 <= payload < ParityMask
    ensures CountOnes(Or(payload, ParityOf(c, payload)), 32) % 2 == TargetParity(c)
  {
    var b := if ParityOf(c, payload) == 0 then 0 else 1;
    Pow2At31And32();
    assert Shl(b, 31) == ParityOf(c, payload);
    ParityIsTheOnlyChoice(c, payload, b);
  }

  /** Bits above bit 31 of the payload do not take part: the parity depends only on bits 1..31 */
  lemma {:induction false} HighPayloadBitsIgnored(payload: int, n: nat, high: int)
    decreases n
    ensures CountOnes(payload + high * Pow2(n), n) == CountOnes(payload, n)
  {
    if n > 0 {
      var h := Pow2(n - 1);
      assert high * Pow2(n) == 2 * (high * h);
      assert (payload + high * Pow2(n)) % 2 == payload % 2;
      assert (payload + high * Pow2(n)) / 2 == payload / 2 + high * h;
      HighPayloadBitsIgnored(payload / 2, n - 1, high);
    }
  }

  /** The parity bit depends only on payload bits 1..31 */
  lemma ParityIgnoresHighBits(c: Convention, payload: int, high: int)
    ensures ParityOf(c, payload + high * ParityMask) == ParityOf(c, payload)
  {
    PayloadOnesIgnoresHighBits(payload, high);
  }

  lemma PayloadOnesIgnoresHighBits(payload: int, high: int)
    ensures PayloadOnes(payload + high * ParityMask) == PayloadOnes(payload)
  {
    var m := Pow2(PayloadBits);
    assert m == ParityMask by {
      Pow2At31And32();
    }
    assert high * m == high * ParityMask;
    HighPayloadBitsIgnored(payload, PayloadBits, high);
  }

  // ---------------------------------------------------------------------------
  // The parity bit object

  class ParityBit {
    const convention: Convention
    /** The payload last given to SetData, if any */
    var data: Option<int>

    constructor (convention: Convention)
      ensures this.convention == convention && data == None
    {
      this.convention := convention;
      data := None;
    }

    /** setData: replaces the payload */
    method SetData(payload: int)
      modifies this
      ensures data == Some(payload)
    {
      data := Some(payload);
    }

    /** getData: the last payload set, or NoData */
    method GetData() returns (r: Result<int>)
      ensures data == None ==> r == Err(NoData)
      ensures data.Some? ==> r == Ok(data.value)
    {
      match data
      case None => r := Err(NoData);
      case Some(payload) => r := Ok(payload);
    }

    /** pack: the parity bit for the last payload set, or NoData */
    method Pack() returns (r: Result<nat>)
      ensures data == None ==> r == Err(NoData)
      ensures data.Some? ==> r == Ok(ParityOf(convention, data.value))
    {
      match data
      case None => r := Err(NoData);
      case Some(payload) => r := Ok(ParityOf(convention, payload));
    }
  }

  /** ParityBit(convention): rejects anything but "odd" and "even" */
  method NewParityBit(v: PyValue) returns (r: Result<ParityBit>)
    ensures r.Err? <==> ParseConvention(v).Err?
    ensures r.Err? ==> r.error == ConventionError
    ensures r.Ok? ==> fresh(r.value) && r.value.data == None
                      && Ok(r.value.convention) == ParseConvention(v)
  {
    match ParseConvention(v)
    case Err(e) => r := Err(e);
    case Ok(c) =>
      var bit := new ParityBit(c);
      r := Ok(bit);
  }

  // ---------------------------------------------------------------------------
  // The behaviour the unit tests pin down

  lemma InvalidConventions()
    ensures ParseConvention(PyStr("test")) == Err(ConventionError)
    ensures ParseConvention(PyStr("")) == Err(ConventionError)
    ensures ParseConvention(PyInt(5)) == Err(ConventionError)
  {
  }

  /** An empty payload: "odd" sets bit 32, "even" leaves it clear */
  lemma EmptyMessage()
    ensures ParityOf(Odd, 0x00) == ParityMask
    ensures ParityOf(Even, 0x00) == 0
  {
    CountOnesOfZero(PayloadBits);
  }

  /** All 31 payload bits set: "odd" leaves bit 32 clear, "even" sets it */
  lemma FullMessage()
    ensures ParityOf(Odd, 0x7FFF_FFFF) == 0
    ensures ParityOf(Even, 0x7FFF_FFFF) == ParityMask
  {
    Pow2At31And32();
    CountOnesOfLowOnes(PayloadBits);
  }

  /** A payload and the parity of its own count of one-bits */
  datatype Sample = Sample(word: int, parity: Convention)

  /** 0b001100101, 0b1110100100101, 0b10100101001010 and 0b10000010001 */
  const FewCases: seq<Sample> :=
    [Sample(0x65, Even), Sample(0x1D25, Odd), Sample(0x294A, Even), Sample(0x411, Odd)]

  /** Each sample's label is the parity of its payload's count of one-bits */
  lemma SampleLabels(k: nat)
    requires k < |FewCases|
    ensures PayloadOnes(FewCases[k].word) % 2 == TargetParity(FewCases[k].parity)
  {
    match k
    case 0 => SampleOnes0();
    case 1 => SampleOnes1();
    case 2 => SampleOnes2();
    case 3 => SampleOnes3();
  }

  lemma SampleOnes0()
    ensures PayloadOnes(0x65) == 4
  {
    assert CountOnes(0, 0) == 0;
    assert CountOnes(1, 1) == 1;
    assert CountOnes(3, 2) == 2;
    assert CountOnes(6, 3) == 2;
    assert CountOnes(12, 4) == 2;
    assert CountOnes(25, 5) == 3;
    assert CountOnes(50, 6) == 3;
    assert CountOnes(101, 7) == 4;
    Pow2Table(7);
    CountOnesBeyond(101, 7, 24);
  }

  lemma SampleOnes1()
    ensures PayloadOnes(0x1D25) == 7
  {
    assert CountOnes(0, 0) == 0;
    assert CountOnes(1, 1) == 1;
    assert CountOnes(3, 2) == 2;
    assert CountOnes(7, 3) == 3;
    assert CountOnes(14, 4) == 3;
    assert CountOnes(29, 5) == 4;
    assert CountOnes(58, 6) == 4;
    assert CountOnes(116, 7) == 4;
    assert CountOnes(233, 8) == 5;
    assert CountOnes(466, 9) == 5;
    assert CountOnes(932, 10) == 5;
    assert CountOnes(1865, 11) == 6;
    assert CountOnes(3730, 12) == 6;
    assert CountOnes(7461, 13) == 7;
    Pow2Table(13);
    CountOnesBeyond(7461, 13, 18);
  }

  lemma SampleOnes2()
    ensures PayloadOnes(0x294A) == 6
  {
    assert CountOnes(0, 0) == 0;
    assert CountOnes(1, 1) == 1;
    assert CountOnes(2, 2) == 1;
    assert CountOnes(5, 3) == 2;
    assert CountOnes(10, 4) == 2;
    assert CountOnes(20, 5) == 2;
    assert CountOnes(41, 6) == 3;
    assert CountOnes(82, 7) == 3;
    assert CountOnes(165, 8) == 4;
    assert CountOnes(330, 9) == 4;
    assert CountOnes(660, 10) == 4;
    assert CountOnes(1321, 11) == 5;
    assert CountOnes(2642, 12) == 5;
    assert CountOnes(5285, 13) == 6;
    assert CountOnes(10570, 14) == 6;
    Pow2Table(14);
    CountOnesBeyond(10570, 14, 17);
  }

  lemma SampleOnes3()
    ensures PayloadOnes(0x411) == 3
  {
    assert CountOnes(0, 0) == 0;
    assert CountOnes(1, 1) == 1;
    assert CountOnes(2, 2) == 1;
    assert CountOnes(4, 3) == 1;
    assert CountOnes(8, 4) == 1;
    assert CountOnes(16, 5) == 1;
    assert CountOnes(32, 6) == 1;
    assert CountOnes(65, 7) == 2;
    assert CountOnes(130, 8) == 2;
    assert CountOnes(260, 9) == 2;
    assert CountOnes(520, 10) == 2;
    assert CountOnes(1041, 11) == 3;
    Pow2Table(11);
    CountOnesBeyond(1041, 11, 20);
  }

  /** The powers of two up to 2^16 */
  lemma {:induction false} Pow2Table(n: nat)
    requires n <= 16
    ensures Pow2(n) == [1, 2, 4, 8, 16, 32, 64, 128, 256, 512, 1024, 2048, 4096, 8192, 16384, 32768, 65536][n]
  {
    if n > 0 {
      Pow2Table(n - 1);
    }
  }

  /** getData and pack before any setData both fail with NoData */
  method NoDataScenario() returns (got: Result<int>, packed: Result<nat>)
    ensures got == Err(NoData) && packed == Err(NoData)
  {
    var bit := new ParityBit(Odd);
    got := bit.GetData();
    packed := bit.Pack();
  }

  /** Two parity bits reused across the samples: each pack reflects only the latest setData */
  method ReplayFewCases() returns (odds: seq<nat>, evens: seq<nat>)
    ensures |odds| == |FewCases| && |evens| == |FewCases|
    ensures forall k :: 0 <= k < |FewCases| ==>
              odds[k] == (if FewCases[k].parity == Even then ParityMask else 0) &&
              evens[k] == (if FewCases[k].parity == Even then 0 else ParityMask)
  {
    var parityBitOdd := new ParityBit(Odd);
    var parityBitEven := new ParityBit(Even);
    odds, evens := [], [];
    for k := 0 to |FewCases|
      invariant |odds| == k && |evens| == k
      invariant forall j :: 0 <= j < k ==>
                  odds[j] == (if FewCases[j].parity == Even then ParityMask else 0) &&
                  evens[j] == (if FewCases[j].parity == Even then 0 else ParityMask)
    {
      SampleLabels(k);
      parityBitOdd.SetData(FewCases[k].word);
      var r := parityBitOdd.Pack();
      odds := odds + [r.value];
      parityBitEven.SetData(FewCases[k].word);
      r := parityBitEven.Pack();
      evens := evens + [r.value];
    }
  }
}
