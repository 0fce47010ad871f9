/** base64.StdEncoding (section 4 of RFC 4648) as Go encodes and decodes it, and 32-byte WireGuard keys. */
module Base64 {
  import opened Common

  type byte = x: int | 0 <= x < 256

  function Symbol(v: nat): char
    requires v < 64
  {
    if v < 26 then 'A' + v as char
    else if v < 52 then 'a' + (v - 26) as char
    else if v < 62 then '0' + (v - 52) as char
    else if v == 62 then '+' else '/'
  }

  function Sextet(c: char): (v: Option<nat>)
    ensures v.Some? ==> v.value < 64
  {
    if 'A' <= c <= 'Z' then Some(c as int - 'A' as int)
    else if 'a' <= c <= 'z' then Some(c as int - 'a' as int + 26)
    else if '0' <= c <= '9' then Some(c as int - '0' as int + 52)
    else if c == '+' then Some(62)
    else if c == '/' then Some(63)
    else None
  }

  /** The alphabet of table 1 in section 4 of RFC 4648; every other character is refused. */
  lemma Alphabet(v: nat, c: char)
    ensures v < 26 ==> Symbol(v) == "ABCDEFGHIJKLMNOPQRSTUVWXYZ"[v] && Symbol(v + 26) == "abcdefghijklmnopqrstuvwxyz"[v]
    ensures v < 10 ==> Symbol(v + 52) == "0123456789"[v]
    ensures Symbol(62) == '+' && Symbol(63) == '/'
    ensures Sextet(c).Some? ==> Symbol(Sextet(c).value) == c
    ensures v < 64 ==> Sextet(Symbol(v)) == Some(v)
  {
    if v < 26 {
      UpperCase(v);
      LowerCase(v);
    }
    if v < 10 { Figures(v); }
  }

  lemma UpperCase(v: nat)
    requires v < 26
    ensures "ABCDEFGHIJKLMNOPQRSTUVWXYZ"[v] == 'A' + v as char
  {}

  lemma LowerCase(v: nat)
    requires v < 26
    ensures "abcdefghijklmnopqrstuvwxyz"[v] == 'a' + v as char
  {}

  lemma Figures(v: nat)
    requires v < 10
    ensures "0123456789"[v] == '0' + v as char
  {}

  function Quantum(x: byte, y: byte, z: byte): (t: string)
    ensures |t| == 4
  {
    [Symbol(x / 4), Symbol(x % 4 * 16 + y / 16), Symbol(y % 16 * 4 + z / 64), Symbol(z % 64)]
  }

  function Encode(b: seq<byte>): string {
    if b == [] then ""
    else if |b| == 1 then Quantum(b[0], 0, 0)[..2] + "=="
    else if |b| == 2 then Quantum(b[0], b[1], 0)[..3] + "="
    else Quantum(b[0], b[1], b[2]) + Encode(b[3..])
  }

  /** The three bytes of four sextets. */
  function Bytes3(p: nat, q: nat, r: nat, s: nat): seq<byte>
    requires p < 64 && q < 64 && r < 64 && s < 64
  {
    [p * 4 + q / 16, q % 16 * 16 + r / 4, r % 4 * 64 + s]
  }

  /** Decoding of text without line breaks: padding only in the last quantum, nothing after it. */
  function DecodeQuanta(t: string): Option<seq<byte>> {
    if t == "" then Some([])
    else if |t| < 4 || Sextet(t[0]).None? || Sextet(t[1]).None? then None
    else
      var p, q := Sextet(t[0]).value, Sextet(t[1]).value;
      if |t| == 4 && t[2] == '=' && t[3] == '=' then Some(Bytes3(p, q, 0, 0)[..1])
      else if Sextet(t[2]).None? then None
      else
        var r := Sextet(t[2]).value;
        if |t| == 4 && t[3] == '=' then Some(Bytes3(p, q, r, 0)[..2])
        else if Sextet(t[3]).None? then None
        else match DecodeQuanta(t[4..])
          case None => None
          case Some(rest) => Some(Bytes3(p, q, r, Sextet(t[3]).value) + rest)
  }

  /** The decoder skips line breaks wherever they stand. */
  function DropBreaks(t: string): string {
    if t == "" then ""
    else if t[0] == '\r' || t[0] == '\n' then DropBreaks(t[1..])
    else [t[0]] + DropBreaks(t[1..])
  }

  function Decode(t: string): Option<seq<byte>> { DecodeQuanta(DropBreaks(t)) }

  predicate IsSymbol(c: char) { Sextet(c).Some? || c == '=' }

  lemma SymbolBack(v: nat)
    requires v < 64
    ensures Sextet(Symbol(v)) == Some(v)
  {}

  lemma SextetsBack(x: byte, y: byte, z: byte)
    ensures Bytes3(x / 4, x % 4 * 16 + y / 16, y % 16 * 4 + z / 64, z % 64) == [x, y, z]
  {
    var q, r := x % 4 * 16 + y / 16, y % 16 * 4 + z / 64;
    assert q / 16 == x % 4 && q % 16 == y / 16;
    assert r / 4 == y % 16 && r % 4 == z / 64;
  }

  lemma QuantumBack(x: byte, y: byte, z: byte)
    ensures forall k | 0 <= k < 4 :: Sextet(Quantum(x, y, z)[k]).Some?
    ensures Bytes3(Sextet(Quantum(x, y, z)[0]).value, Sextet(Quantum(x, y, z)[1]).value,
                   Sextet(Quantum(x, y, z)[2]).value, Sextet(Quantum(x, y, z)[3]).value) == [x, y, z]
  {
    hide Symbol, Sextet, Bytes3;
    SymbolBack(x / 4);
    SymbolBack(x % 4 * 16 + y / 16);
    SymbolBack(y % 16 * 4 + z / 64);
    SymbolBack(z % 64);
    SextetsBack(x, y, z);
  }

  lemma Unpad(quad: string, x: byte, y: byte, z: byte)
    requires |quad| == 4 && forall k | 0 <= k < 4 :: Sextet(quad[k]).Some?
    requires Bytes3(Sextet(quad[0]).value, Sextet(quad[1]).value, Sextet(quad[2]).value, Sextet(quad[3]).value) == [x, y, z]
    requires z == 0 ==> Sextet(quad[3]).value == 0 && (y == 0 ==> Sextet(quad[2]).value == 0)
    ensures z == 0 ==> DecodeQuanta(quad[..3] + "=") == Some([x, y])
    ensures z == 0 && y == 0 ==> DecodeQuanta(quad[..2] + "==") == Some([x])
    ensures forall c | c in quad :: IsSymbol(c)
  {
    hide Sextet, Bytes3;
    Padding();
    var p, q, r, s := Sextet(quad[0]).value, Sextet(quad[1]).value, Sextet(quad[2]).value, Sextet(quad[3]).value;
    if z == 0 { assert Bytes3(p, q, r, 0)[..2] == [x, y]; }
    if z == 0 && y == 0 { assert Bytes3(p, q, 0, 0)[..1] == [x]; }
  }

  lemma Padding()
    ensures Sextet('=').None?
  {}

  lemma LowSextets(x: byte, y: byte, z: byte)
    ensures z == 0 ==> Sextet(Quantum(x, y, z)[3]) == Some(0) && (y == 0 ==> Sextet(Quantum(x, y, z)[2]) == Some(0))
  {}

  lemma {:induction false} QuantaBack(b: seq<byte>)
    ensures DecodeQuanta(Encode(b)) == Some(b)
    ensures forall c | c in Encode(b) :: IsSymbol(c)
  {
    hide Symbol, Sextet, Quantum, Bytes3;
    if b != [] {
      var x, y, z := b[0], if |b| > 1 then b[1] else 0, if |b| > 2 then b[2] else 0;
      QuantumBack(x, y, z);
      Padding();
      LowSextets(x, y, z);
      var quad := Quantum(x, y, z);
      Unpad(quad, x, y, z);
      if |b| >= 3 {
        QuantaBack(b[3..]);
        assert (quad + Encode(b[3..]))[4..] == Encode(b[3..]);
        assert [x, y, z] + b[3..] == b;
        assert forall c | c in Encode(b) :: c in quad || c in Encode(b[3..]);
      } else if |b| == 2 {
        assert b == [x, y];
      } else {
        assert b == [x];
      }
    }
  }

  lemma {:induction false} NoBreaks(t: string)
    requires '\r' !in t && '\n' !in t
    ensures DropBreaks(t) == t
  {
    if t != "" { NoBreaks(t[1..]); }
  }

  /** Encoding then decoding gives the bytes back, for any number of bytes. */
  lemma DecodeEncode(b: seq<byte>)
    ensures Decode(Encode(b)) == Some(b)
    ensures forall c | c in Encode(b) :: IsSymbol(c)
  {
    QuantaBack(b);
    assert !IsSymbol('\r') && !IsSymbol('\n');
    NoBreaks(Encode(b));
  }

  /** The test vectors of section 10 of RFC 4648. */
  lemma TestVectors()
    ensures Encode([]) == "" && Encode([102]) == "Zg==" && Encode([102, 111]) == "Zm8="
    ensures Encode([102, 111, 111]) == "Zm9v" && Encode([102, 111, 111, 98, 97, 114]) == "Zm9vYmFy"
  {
    hide Quantum;
    FourSymbols();
    assert Encode([]) == "";
    assert [102, 111, 111][3..] == [] && [98, 97, 114][3..] == [];
    assert Encode([102, 111, 111]) == "Zm9v" + "" && Encode([98, 97, 114]) == "YmFy" + "";
    assert [102, 111, 111, 98, 97, 114][3..] == [98, 97, 114];
    assert "Zm9v" + "YmFy" == "Zm9vYmFy";
    assert "ZgAA"[..2] + "==" == "Zg==" && "Zm8A"[..3] + "=" == "Zm8=";
  }

  lemma FourSymbols()
    ensures Quantum(102, 0, 0) == "ZgAA" && Quantum(102, 111, 0) == "Zm8A"
    ensures Quantum(102, 111, 111) == "Zm9v" && Quantum(98, 97, 114) == "YmFy"
  {}

  // ---- Keys ----

  type Key = k: seq<byte> | |k| == 32 witness seq(32, _ => 0)

  /** What copy leaves in a zeroed 32-byte array: the first 32 bytes, and zeros for missing ones. */
  function Fill(b: seq<byte>): Key { if |b| >= 32 then b[..32] else b + seq(32 - |b|, _ => 0) }

  /** The key that a decodable text names. */
  function KeyOf(s: string): Key
    requires Decode(s).Some?
  {
    Fill(Decode(s).value)
  }

  /** The text is the one its key prints as. */
  predicate IsKeyText(s: string): (r: bool)
    ensures r ==> Decode(s).Some?
  {
    Decode(s).Some? && Encode(KeyOf(s)) == s
  }

  lemma KeyTextRoundTrip(k: Key)
    ensures IsKeyText(Encode(k)) && KeyOf(Encode(k)) == k
  {
    hide Encode, DropBreaks, DecodeQuanta;
    DecodeEncode(k);
    assert k[..32] == k;
  }

  // ---- Other texts of the same key ----

  lemma {:induction false} BreakDropped(t: string)
    ensures DropBreaks(t + "\n") == DropBreaks(t)
  {
    if t == "" {
      assert DropBreaks("\n"[1..]) == "";
    } else {
      assert (t + "\n")[1..] == t[1..] + "\n";
      BreakDropped(t[1..]);
    }
  }

  /** A trailing line break is skipped by the decoder, so every key has a text that is not its own. */
  lemma LineBreakAlias(k: Key)
    ensures var t := Encode(k) + "\n";
      Decode(t) == Some(k) && KeyOf(t) == k && !IsKeyText(t)
  {
    hide Encode, DropBreaks, DecodeQuanta;
    BreakDropped(Encode(k));
    DecodeEncode(k);
    assert |Encode(k) + "\n"| == |Encode(k)| + 1;
  }

  /** Whole quanta in front are decoded on their own. */
  lemma {:induction false} QuantaThen(b: seq<byte>, t: string)
    requires |b| % 3 == 0
    ensures DecodeQuanta(Encode(b) + t) == if DecodeQuanta(t).Some? then Some(b + DecodeQuanta(t).value) else None
    decreases |b|
  {
    hide DecodeQuanta, Quantum;
    if b == [] {
      assert Encode(b) + t == t;
      assert DecodeQuanta(t).Some? ==> b + DecodeQuanta(t).value == DecodeQuanta(t).value;
    } else {
      var quad, rest := Quantum(b[0], b[1], b[2]), Encode(b[3..]);
      QuantaThen(b[3..], t);
      assert Encode(b) + t == quad + (rest + t);
      QuantumThen(b[0], b[1], b[2], rest + t);
      assert DecodeQuanta(t).Some? ==> [b[0], b[1], b[2]] + (b[3..] + DecodeQuanta(t).value) == b + DecodeQuanta(t).value;
    }
  }

  lemma QuantumThen(x: byte, y: byte, z: byte, t: string)
    ensures DecodeQuanta(Quantum(x, y, z) + t) ==
            if DecodeQuanta(t).Some? then Some([x, y, z] + DecodeQuanta(t).value) else None
  {
    hide Sextet, Bytes3, Symbol, Quantum;
    QuantumBack(x, y, z);
    Padding();
    assert (Quantum(x, y, z) + t)[4..] == t;
  }

  lemma {:induction false} EncodeThen(b: seq<byte>, c: seq<byte>)
    requires |b| % 3 == 0
    ensures Encode(b + c) == Encode(b) + Encode(c)
    decreases |b|
  {
    hide Quantum;
    if b == [] {
      assert b + c == c && Encode(b) + Encode(c) == Encode(c);
    } else {
      assert (b + c)[3..] == b[3..] + c;
      EncodeThen(b[3..], c);
      var quad := Quantum(b[0], b[1], b[2]);
      assert quad + (Encode(b[3..]) + Encode(c)) == (quad + Encode(b[3..])) + Encode(c);
    }
  }

  /** The padded last quantum of two bytes, with the two spare bits set to e. */
  function LastFour(x: byte, y: byte, e: nat): (t: string)
    requires e < 4
    ensures |t| == 4
  {
    [Symbol(x / 4), Symbol(x % 4 * 16 + y / 16), Symbol(y % 16 * 4 + e), '=']
  }

  lemma LastFourDecodes(x: byte, y: byte, e: nat)
    requires e < 4
    ensures DecodeQuanta(LastFour(x, y, e)) == Some([x, y])
    ensures forall c | c in LastFour(x, y, e) :: IsSymbol(c)
    ensures LastFour(x, y, e) == Encode([x, y]) <==> e == 0
  {
    hide Symbol, Sextet, Encode, Bytes3;
    var p, q, r := x / 4, x % 4 * 16 + y / 16, y % 16 * 4 + e;
    SymbolBack(p);
    SymbolBack(q);
    SymbolBack(r);
    SymbolBack(y % 16 * 4);
    Padding();
    TwoBytes(x, y, e);
    EncodeTwo(x, y);
    assert LastFour(x, y, e)[2] == Symbol(r) && LastFour(x, y, 0)[2] == Symbol(y % 16 * 4);
  }

  lemma TwoBytes(x: byte, y: byte, e: nat)
    requires e < 4
    ensures Bytes3(x / 4, x % 4 * 16 + y / 16, y % 16 * 4 + e, 0)[..2] == [x, y]
  {
    var q, r := x % 4 * 16 + y / 16, y % 16 * 4 + e;
    assert q / 16 == x % 4 && q % 16 == y / 16 && r / 4 == y % 16;
  }

  lemma EncodeTwo(x: byte, y: byte)
    ensures Encode([x, y]) == LastFour(x, y, 0)
  {
    hide Symbol;
    assert y % 16 * 4 + 0 / 64 == y % 16 * 4;
  }

  /**
   * The last symbol before the padding carries two spare bits that the decoder ignores: the four
   * texts that differ in them name the same key, and one of them is the key's own text.
   */
  lemma SpareBits(k: Key, e: nat)
    requires e < 4
    ensures var t := Encode(k[..30]) + LastFour(k[30], k[31], e);
      Decode(t) == Some(k) && KeyOf(t) == k && (e == 0 <==> IsKeyText(t))
  {
    hide Encode, DecodeQuanta, DropBreaks, LastFour, IsSymbol;
    var first, last := Encode(k[..30]), LastFour(k[30], k[31], e);
    assert k[..30] + [k[30], k[31]] == k;
    QuantaThen(k[..30], last);
    LastFourDecodes(k[30], k[31], e);
    EncodeThen(k[..30], [k[30], k[31]]);
    DecodeEncode(k[..30]);
    NoBreakSymbols(first + last);
    NoBreaks(first + last);
    assert (first + last)[|first|..] == last && (first + Encode([k[30], k[31]]))[|first|..] == Encode([k[30], k[31]]);
  }

  lemma NoBreakSymbols(t: string)
    requires forall c | c in t :: IsSymbol(c)
    ensures '\r' !in t && '\n' !in t
  {
    assert !IsSymbol('\r') && !IsSymbol('\n');
  }
}
