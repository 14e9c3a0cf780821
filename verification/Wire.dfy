/** The wire form of a block address: one opcode byte and a decimal number, printed into five bytes. */
module Wire {
  import Arith

  const BUFFER_SIZE := 5
  const ASCII_ZERO := 48

  datatype Parsed = Parsed(opcode: nat, address: nat)

  function Pow10(k: nat): (p: nat)
    ensures p > 0
  {
    if k == 0 then 1 else 10 * Pow10(k - 1)
  }

  /** Decimal digits, most significant first. */
  function Decimal(n: nat): (ds: seq<nat>)
    ensures |ds| > 0 && forall k :: 0 <= k < |ds| ==> ds[k] < 10
  {
    if n < 10 then [n] else Decimal(n / 10) + [n % 10]
  }

  function Value(ds: seq<nat>): nat {
    if ds == [] then 0 else 10 * Value(ds[..|ds| - 1]) + ds[|ds| - 1]
  }

  function Ascii(ds: seq<nat>): (text: seq<nat>)
    ensures |text| == |ds|
  {
    seq(|ds|, k requires 0 <= k < |ds| => ASCII_ZERO + ds[k])
  }

  /** Bounded printing: what fits before the terminating zero, then the zero. */
  function Encode(opcode: nat, address: nat): seq<nat> {
    var text := [opcode] + Ascii(Decimal(address));
    (if |text| < BUFFER_SIZE then text else text[..BUFFER_SIZE - 1]) + [0]
  }

  predicate IsDigit(c: nat) { ASCII_ZERO <= c < ASCII_ZERO + 10 }

  /** Read digits from the front until something else comes. */
  function Number(text: seq<nat>, sofar: nat): nat {
    if text == [] || !IsDigit(text[0]) then sofar
    else Number(text[1..], 10 * sofar + text[0] - ASCII_ZERO)
  }

  function Decode(message: seq<nat>): Parsed
    requires message != []
  {
    Parsed(message[0], Number(message[1..], 0))
  }

  /** The address the other side sees. */
  function WireAddress(address: nat): nat {
    Decode(Encode(0, address)).address
  }

  lemma {:induction false} DigitCount(n: nat)
    ensures n < Pow10(|Decimal(n)|)
    ensures n >= 10 ==> Pow10(|Decimal(n)| - 1) <= n
  {
    if n >= 10 {
      DigitCount(n / 10);
    }
  }

  lemma {:induction false} DecimalValue(n: nat)
    ensures Value(Decimal(n)) == n
    decreases n
  {
    var ds := Decimal(n);
    if n < 10 {
      assert ds[..0] == [];
    } else {
      DecimalValue(n / 10);
      assert ds[..|ds| - 1] == Decimal(n / 10);
    }
  }

  /** The leading k digits of a number are the number divided by the missing power of ten. */
  lemma {:induction false} LeadingDigits(n: nat, k: nat)
    requires k <= |Decimal(n)|
    ensures Value(Decimal(n)[..k]) == n / Pow10(|Decimal(n)| - k)
    decreases n
  {
    var ds := Decimal(n);
    if k == |ds| {
      assert ds[..k] == ds;
      DecimalValue(n);
      assert Pow10(0) == 1;
    } else if n < 10 {
      assert ds[..k] == [] && Pow10(1) == 10 * Pow10(0);
    } else {
      var e := |ds| - 1 - k;
      LeadingDigits(n / 10, k);
      assert ds[..k] == Decimal(n / 10)[..k];
      Arith.DivDiv(n, Pow10(e));
      assert Pow10(e + 1) == 10 * Pow10(e);
    }
  }

  lemma {:induction false} NumberReadsValue(ds: seq<nat>, sofar: nat)
    requires forall k :: 0 <= k < |ds| ==> ds[k] < 10
    ensures Number(Ascii(ds) + [0], sofar) == sofar * Pow10(|ds|) + Value(ds)
    decreases |ds|
  {
    var text := Ascii(ds) + [0];
    if ds == [] {
      assert text == [0];
    } else {
      assert text[1..] == Ascii(ds[1..]) + [0];
      var p := Pow10(|ds| - 1);
      NumberReadsValue(ds[1..], 10 * sofar + ds[0]);
      ValueFromFront(ds);
      Arith.Distribute(sofar, ds[0], p);
      calc {
        Number(text, sofar);
        Number(Ascii(ds[1..]) + [0], 10 * sofar + ds[0]);
        (10 * sofar + ds[0]) * p + Value(ds[1..]);
        sofar * (10 * p) + Value(ds);
      }
    }
  }

  lemma {:induction false} ValueFromFront(ds: seq<nat>)
    requires ds != []
    ensures Value(ds) == ds[0] * Pow10(|ds| - 1) + Value(ds[1..])
    decreases |ds|
  {
    if |ds| == 1 {
      assert ds[..0] == [] && ds[1..] == [];
    } else {
      var front := ds[..|ds| - 1];
      ValueFromFront(front);
      assert ds[1..][..|ds| - 2] == front[1..];
      assert 10 * (ds[0] * Pow10(|ds| - 2)) == ds[0] * Pow10(|ds| - 1);
    }
  }

  /** The excess digits, those that do not fit. */
  function Excess(address: nat): nat {
    var d := |Decimal(address)|;
    if d <= BUFFER_SIZE - 2 then 0 else d - (BUFFER_SIZE - 2)
  }

  /** The address without its excess low digits. */
  function Cut(address: nat): nat {
    Arith.Quotient(address, Pow10(Excess(address)))
  }

  /** The message is the opcode, the digits that fit, and the terminating zero. */
  lemma EncodeShape(opcode: nat, address: nat)
    ensures Excess(address) <= |Decimal(address)|
    ensures Encode(opcode, address) == [opcode] + Ascii(Decimal(address)[..|Decimal(address)| - Excess(address)]) + [0]
  {
    var ds := Decimal(address);
    var k := |ds| - Excess(address);
    assert Ascii(ds)[..k] == Ascii(ds[..k]);
    var text := [opcode] + Ascii(ds);
    assert text[..k + 1] == [opcode] + Ascii(ds)[..k];
  }

  lemma DecodeDigits(opcode: nat, ds: seq<nat>)
    requires forall k :: 0 <= k < |ds| ==> ds[k] < 10
    ensures Decode([opcode] + Ascii(ds) + [0]) == Parsed(opcode, Value(ds))
  {
    NumberReadsValue(ds, 0);
    assert 0 * Pow10(|ds|) == 0;
    assert ([opcode] + Ascii(ds) + [0])[1..] == Ascii(ds) + [0];
  }

  /** What arrives, for every address: the opcode, and the address with its excess low digits cut off. */
  lemma DecodeEncode(opcode: nat, address: nat)
    ensures Decode(Encode(opcode, address)) == Parsed(opcode, Cut(address))
  {
    EncodeShape(opcode, address);
    var k := |Decimal(address)| - Excess(address);
    DecodeDigits(opcode, Decimal(address)[..k]);
    LeadingDigits(address, k);
  }

  // ----- the bytes of a message

  lemma {:induction false} DigitAt(n: nat, k: nat)
    requires k < |Decimal(n)|
    ensures Decimal(n)[k] == (n / Pow10(|Decimal(n)| - 1 - k)) % 10
    decreases n
  {
    var e := |Decimal(n)| - 1 - k;
    if n < 10 || e == 0 {
      assert Pow10(0) == 1;
    } else {
      DigitAt(n / 10, k);
      Arith.DivDiv(n, Pow10(e - 1));
      assert Pow10(e) == 10 * Pow10(e - 1);
    }
  }

  /** d is the number of decimal digits of n. */
  predicate HasDigits(n: nat, d: nat) {
    d >= 1 && n < Pow10(d) && (d > 1 ==> Pow10(d - 1) <= n)
  }

  lemma {:induction false} DigitsAreCounted(n: nat, d: nat)
    ensures HasDigits(n, d) <==> d == |Decimal(n)|
    decreases n
  {
    DigitCount(n);
    assert HasDigits(n, |Decimal(n)|);
    if HasDigits(n, d) {
      OneDigitCount(n, d, |Decimal(n)|);
      OneDigitCount(n, |Decimal(n)|, d);
    }
  }

  lemma OneDigitCount(n: nat, d: nat, e: nat)
    requires HasDigits(n, d) && HasDigits(n, e)
    ensures d <= e
  {
    if e < d {
      PowSplit(e, d - 1 - e);
      Arith.MulMono(1, Pow10(d - 1 - e), Pow10(e), Pow10(e));
    }
  }

  /** The message byte by byte: the opcode, the first three decimal digits as the characters '0' (48) to '9', and the
      terminating zero. */
  lemma EncodeBytes(opcode: nat, address: nat, d: nat)
    requires HasDigits(address, d)
    ensures var message, m := Encode(opcode, address), if d < 3 then d else 3;
            && |message| == m + 2 && message[0] == opcode && message[m + 1] == 0
            && forall k :: 1 <= k <= m ==> message[k] == 48 + (address / Pow10(d - k)) % 10
  {
    EncodeShape(opcode, address);
    DigitsAreCounted(address, d);
    var m := if d < 3 then d else 3;
    forall k | 1 <= k <= m ensures Encode(opcode, address)[k] == 48 + (address / Pow10(d - k)) % 10 {
      DigitAt(address, k - 1);
    }
  }

  lemma SmallPowers()
    ensures Pow10(0) == 1 && Pow10(1) == 10 && Pow10(2) == 100 && Pow10(3) == 1000
  {
  }

  lemma LongAddress(address: nat, d: nat, p: nat)
    requires d > 3 && p == Pow10(d - 3) && Pow10(d - 1) <= address < Pow10(d)
    ensures address >= 1000 && 100 <= address / p < 1000
  {
    SmallPowers();
    PowSplit(d - 3, 2);
    PowSplit(d - 3, 3);
    PowSplit(d - 4, 1);
    var q := address / p;
    assert address == q * p + address % p;
    Arith.MulGap(q, 100, p);
    Arith.MulGap(999, q, p);
    assert (q + 1) * p == q * p + p;
  }

  lemma ExcessMeans(address: nat)
    ensures Excess(address) == 0 <==> address < 1000
    ensures address >= 1000 ==> 100 <= Cut(address) < 1000
  {
    DigitCount(address);
    SmallPowers();
    var d := |Decimal(address)|;
    if d > 3 {
      assert address >= 10;
      LongAddress(address, d, Pow10(d - 3));
    } else {
      assert d == 1 || d == 2 || d == 3;
    }
  }

  /** The printed form is faithful exactly for addresses below 1000; above, what arrives is a three-digit number. */
  lemma FaithfulRange(opcode: nat, address: nat)
    ensures Decode(Encode(opcode, address)) == Parsed(opcode, address) <==> address < 1000
    ensures address >= 1000 ==> 100 <= Decode(Encode(opcode, address)).address < 1000
  {
    DecodeEncode(opcode, address);
    ExcessMeans(address);
    assert Pow10(0) == 1;
  }

  lemma {:induction false} PowSplit(a: nat, b: nat)
    ensures Pow10(a + b) == Pow10(b) * Pow10(a)
  {
    if b > 0 {
      PowSplit(a, b - 1);
      assert Pow10(a + b) == 10 * (Pow10(b - 1) * Pow10(a));
    }
  }
}
