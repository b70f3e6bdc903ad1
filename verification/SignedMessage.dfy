/**
 * The message an Ethereum wallet signs to claim an account: version 0x45 ("personal_sign") of
 * EIP-191 over a fixed prefix, the account in ASCII hex, and optional extra bytes.
 */
module SignedMessage {
  import opened Numbers
  import opened Sums

  type Byte = b: nat | b < 256

  datatype Error = NumOverflow | VecInsufficientCapacity

  /** The runtime is compiled for a 32-bit machine. */
  const USIZE_MAX: nat := U32_MAX
  const ISIZE_MAX: nat := 0x7FFF_FFFF

  /** `\x19Ethereum Signed Message:\n` */
  const MAGIC: seq<Byte> :=
    [0x19, 69, 116, 104, 101, 114, 101, 117, 109, 32, 83, 105, 103, 110, 101, 100, 32,
     77, 101, 115, 115, 97, 103, 101, 58, 10]

  /** `reef evm:` */
  const PREFIX: seq<Byte> := [114, 101, 101, 102, 32, 101, 118, 109, 58]

  // ---------- decimal digits, least significant first ----------

  function DigitsOf(l: nat): (ds: seq<Byte>)
    ensures forall i :: 0 <= i < |ds| ==> 48 <= ds[i] <= 57
  {
    if l == 0 then [] else [48 + l % 10] + DigitsOf(l / 10)
  }

  /** The number a string of decimal digits stands for. */
  function ValueOf(ds: seq<Byte>): int
  {
    if ds == [] then 0 else ds[0] - 48 + 10 * ValueOf(ds[1..])
  }

  /** The digits are the decimal expansion: they stand for the number and none leads with zero. */
  lemma {:induction false} DigitsExact(l: nat)
    ensures ValueOf(DigitsOf(l)) == l
    ensures l > 0 ==> DigitsOf(l) != [] && DigitsOf(l)[|DigitsOf(l)| - 1] != 48
  {
    if l == 0 {
    } else {
      DigitsExact(l / 10);
      assert DigitsOf(l)[1..] == DigitsOf(l / 10);
    }
  }

  lemma {:induction false} MoreDigits(a: nat, b: nat)
    requires a <= b
    ensures |DigitsOf(a)| <= |DigitsOf(b)|
  {
    if a == 0 {
    } else {
      MoreDigits(a / 10, b / 10);
    }
  }

  /** The number a decimal numeral stands for, read from left to right. */
  function Numeral(s: seq<Byte>): int
  {
    if s == [] then 0 else 10 * Numeral(s[..|s| - 1]) + s[|s| - 1] - 48
  }

  /** Written backwards, the digits are the usual numeral, without leading zeros. */
  lemma {:induction false} NumeralExact(l: nat)
    ensures var s := Reverse(DigitsOf(l));
      && Numeral(s) == l && (s != [] ==> s[0] != 48)
      && (s == [] <==> l == 0) && forall i :: 0 <= i < |s| ==> 48 <= s[i] <= 57
  {
    if l == 0 {
    } else {
      NumeralExact(l / 10);
      var s, shorter := Reverse(DigitsOf(l)), Reverse(DigitsOf(l / 10));
      assert s == shorter + [48 + l % 10];
      assert s[..|s| - 1] == shorter;
    }
  }

  /** The bytes of a string of ASCII characters. */
  function Ascii(s: string): (r: seq<Byte>)
    requires forall i :: 0 <= i < |s| ==> s[i] as int < 128
    ensures |r| == |s| && forall i :: 0 <= i < |s| ==> r[i] == s[i] as int
  {
    seq(|s|, i requires 0 <= i < |s| => s[i] as int)
  }

  // ---------- the signable message ----------

  /** The message over a payload. */
  function Framed(payload: seq<Byte>): seq<Byte>
  {
    MAGIC + Reverse(DigitsOf(|PREFIX| + |payload|)) + PREFIX + payload
  }

  /** The message is that of `personal_sign`: the magic text, the length in decimal, the prefix and the payload. */
  lemma FramedReads(payload: seq<Byte>)
    ensures var numeral := Reverse(DigitsOf(9 + |payload|));
      && Framed(payload) == Ascii("\U{19}Ethereum Signed Message:\n") + numeral + Ascii("reef evm:") + payload
      && Numeral(numeral) == |Ascii("reef evm:") + payload| && numeral[0] != 48
  {
    hide DigitsOf, Numeral;
    NumeralExact(9 + |payload|);
    assert MAGIC == Ascii("\U{19}Ethereum Signed Message:\n");
    assert PREFIX == Ascii("reef evm:");
  }

  lemma FramedLength(payload: seq<Byte>)
    ensures |Framed(payload)| == 26 + |DigitsOf(9 + |payload|)| + 9 + |payload|
    ensures Framed(payload)[|Framed(payload)| - |payload|..] == payload
  {
  }

  /** Two payloads give the same message only when they are the same: longer payloads give longer messages. */
  lemma FramedInjective(p: seq<Byte>, q: seq<Byte>)
    ensures Framed(p) == Framed(q) <==> p == q
  {
    FramedLength(p);
    FramedLength(q);
    if |p| <= |q| {
      MoreDigits(9 + |p|, 9 + |q|);
    } else {
      MoreDigits(9 + |q|, 9 + |p|);
    }
  }

  method EthereumSignableMessage(what: seq<Byte>, extra: seq<Byte>) returns (r: Result<seq<Byte>, Error>)
    ensures r == if |PREFIX| + |what| + |extra| > USIZE_MAX then Err(NumOverflow) else Ok(Framed(what + extra))
  {
    var l: nat := |PREFIX| + |what| + |extra|;
    if l > USIZE_MAX {
      return Err(NumOverflow);
    }
    var rev: seq<Byte> := [];
    ghost var digits := DigitsOf(l);
    while l > 0
      invariant rev + DigitsOf(l) == digits
    {
      assert rev + DigitsOf(l) == rev + [48 + l % 10] + DigitsOf(l / 10);
      rev := rev + [48 + l % 10];
      l := l / 10;
    }
    assert rev == digits;
    var v := MAGIC;
    v := v + Reverse(rev);
    v := v + PREFIX;
    v := v + what;
    v := v + extra;
    assert v == Framed(what + extra);
    r := Ok(v);
  }

  // ---------- ASCII hex ----------

  function Nibble(n: nat): Byte
    requires n < 16
  {
    if n < 10 then 48 + n else 87 + n
  }

  function Hex(data: seq<Byte>): (r: seq<Byte>)
    ensures |r| == 2 * |data|
    ensures forall i :: 0 <= i < |data| ==> r[2 * i] == Nibble(data[i] / 16) && r[2 * i + 1] == Nibble(data[i] % 16)
  {
    if data == [] then []
    else
      var n := |data| - 1;
      Hex(data[..n]) + [Nibble(data[n] / 16), Nibble(data[n] % 16)]
  }

  /** The nibble a hex digit stands for. */
  function NibbleValue(b: Byte): int { if b < 58 then b - 48 else b - 87 }

  lemma NibbleExact(n: nat)
    requires n < 16
    ensures NibbleValue(Nibble(n)) == n
  {
  }

  /** Each byte can be read back from its two digits. */
  lemma HexRoundTrip(data: seq<Byte>, i: nat)
    requires i < |data|
    ensures data[i] == 16 * NibbleValue(Hex(data)[2 * i]) + NibbleValue(Hex(data)[2 * i + 1])
  {
    NibbleExact(data[i] / 16);
    NibbleExact(data[i] % 16);
  }

  lemma HexInjective(a: seq<Byte>, b: seq<Byte>)
    requires Hex(a) == Hex(b)
    ensures a == b
  {
    forall i | 0 <= i < |a| ensures a[i] == b[i] {
      HexRoundTrip(a, i);
      HexRoundTrip(b, i);
    }
  }

  lemma {:induction false} HexConcat(a: seq<Byte>, b: seq<Byte>)
    ensures Hex(a + b) == Hex(a) + Hex(b)
  {
    if b == [] {
      assert a + b == a && Hex(a) + Hex(b) == Hex(a);
    } else {
      var n := |b| - 1;
      HexConcat(a, b[..n]);
      HexSnoc(a + b);
      HexSnoc(b);
      assert (a + b)[..|a + b| - 1] == a + b[..n];
      hide Hex;
      assert Hex(a) + Hex(b) == Hex(a) + Hex(b[..n]) + [Nibble(b[n] / 16), Nibble(b[n] % 16)];
    }
  }

  lemma HexSnoc(data: seq<Byte>)
    requires data != []
    ensures var n := |data| - 1; Hex(data) == Hex(data[..n]) + [Nibble(data[n] / 16), Nibble(data[n] % 16)]
  {
  }

  method PushNibble(nibble: Byte, r: seq<Byte>) returns (res: Result<seq<Byte>, Error>)
    // one byte is appended, and the nibble can be read back from it; it is the hex digit of a real nibble
    ensures res.Ok? ==> |res.value| == |r| + 1 && res.value[..|r|] == r && NibbleValue(res.value[|r|]) == nibble
    ensures nibble < 16 ==> res == Ok(r + [Nibble(nibble)])
    ensures res == Err(NumOverflow) <==> nibble > 168
    ensures res.Err? ==> res.error == NumOverflow
  {
    if nibble < 10 {
      return Ok(r + [48 + nibble]);
    }
    if 87 + nibble > 255 {
      return Err(NumOverflow);
    }
    res := Ok(r + [87 + nibble]);
  }

  method ConvertToAsciiHex(data: seq<Byte>) returns (res: Result<seq<Byte>, Error>)
    ensures res ==
      if 2 * |data| > USIZE_MAX then Err(NumOverflow)
      else if 2 * |data| >= ISIZE_MAX then Err(VecInsufficientCapacity)
      else Ok(Hex(data))
  {
    if 2 * |data| > USIZE_MAX {
      return Err(NumOverflow);
    }
    if 2 * |data| >= ISIZE_MAX {
      return Err(VecInsufficientCapacity);
    }
    var r: seq<Byte> := [];
    for i := 0 to |data|
      invariant r == Hex(data[..i])
    {
      assert data[..i + 1][..i] == data[..i];
      var high := PushNibble(data[i] / 16, r);
      var low := PushNibble(data[i] % 16, high.value);
      assert low.value == r + [Nibble(data[i] / 16), Nibble(data[i] % 16)];
      r := low.value;
    }
    assert data[..|data|] == data;
    res := Ok(r);
  }

  // ---------- what a signature is over ----------

  /** The message signed for an account's bytes and some extra bytes. */
  function ClaimMessage(what: seq<Byte>, extra: seq<Byte>): seq<Byte>
  {
    Framed(Hex(what) + extra)
  }

  /**
   * Claims share a message exactly when the shorter account's bytes begin the longer one's and its
   * extra bytes start with the rest in hex.
   */
  lemma ClaimsCollide(w: seq<Byte>, e: seq<Byte>, w': seq<Byte>, e': seq<Byte>)
    requires |w| <= |w'|
    ensures ClaimMessage(w, e) == ClaimMessage(w', e') <==> w == w'[..|w|] && e == Hex(w'[|w|..]) + e'
  {
    hide Hex, Framed;
    var n := |w|;
    FramedInjective(Hex(w) + e, Hex(w') + e');
    HexConcat(w'[..n], w'[n..]);
    assert w' == w'[..n] + w'[n..];
    assert Hex(w') + e' == Hex(w'[..n]) + (Hex(w'[n..]) + e');
    SplitAt(Hex(w), e, Hex(w'[..n]), Hex(w'[n..]) + e');
    if Hex(w) == Hex(w'[..n]) {
      HexInjective(w, w'[..n]);
    }
  }

  lemma SplitAt(a: seq<Byte>, b: seq<Byte>, c: seq<Byte>, d: seq<Byte>)
    requires |a| == |c|
    ensures a + b == c + d <==> a == c && b == d
  {
    assert (a + b)[..|a|] == a && (a + b)[|a|..] == b;
    assert (c + d)[..|a|] == c && (c + d)[|a|..] == d;
  }

  /** So for accounts of one length, as all account ids are, distinct claims have distinct messages. */
  lemma ClaimsDistinct(w: seq<Byte>, e: seq<Byte>, w': seq<Byte>, e': seq<Byte>)
    requires |w| == |w'| || e == e'
    ensures ClaimMessage(w, e) == ClaimMessage(w', e') <==> w == w' && e == e'
  {
    if |w| <= |w'| {
      ClaimsCollide(w, e, w', e');
      assert |w| == |w'| ==> w'[..|w|] == w' && w'[|w|..] == [] && Hex([]) + e' == e';
    } else {
      ClaimsCollide(w', e', w, e);
    }
  }
}
