/**
  The chunked transfer coding (section 7.1 of RFC 9112): the server's chunk writer against the
  incremental reader of message bodies.
*/
module ChunkedCoding {
  import opened Bits

  const CRLF: string := "\r\n"

  // ---------------------------------------------------------------- chunk sizes

  // `%X`
  function HexDigit(d: nat): char
    requires d < 16
  {
    if d < 10 then '0' + d as char else 'A' + (d - 10) as char
  }

  function Hex(n: nat): string {
    if n < 16 then [HexDigit(n)] else Hex(n / 16) + [HexDigit(n % 16)]
  }

  // The value of a digit of either case, -1 for any other character
  function DigitValue(c: char): int {
    if '0' <= c <= '9' then c as int - '0' as int
    else if 'A' <= c <= 'F' then c as int - 'A' as int + 10
    else if 'a' <= c <= 'f' then c as int - 'a' as int + 10
    else -1
  }

  // What the digits at the front of line add to acc
  function Parse(line: string, acc: nat): nat {
    if line == [] || DigitValue(line[0]) < 0 then acc
    else Parse(line[1..], 16 * acc + DigitValue(line[0]))
  }

  // Accumulating in 32 bits is accumulating and then reducing.
  lemma Int32Step(a: int, d: int)
    ensures Int32(16 * Int32(a) + d) == Int32(16 * a + d)
  {
    var q := (a - Int32(a)) / WORD32;
    assert a == q * WORD32 + Int32(a);
    assert 16 * a + d == (16 * Int32(a) + d) + (16 * q) * WORD32;
    ModShift(16 * Int32(a) + d, 16 * q);
  }

  lemma ModShift(x: int, k: int)
    ensures (x + k * WORD32) % WORD32 == x % WORD32
  {
    ModUnique(x + k * WORD32, WORD32, x / WORD32 + k, x % WORD32);
  }

  // The int that accumulates the size stays in range all the time.
  predicate FitsInt(line: string, acc: nat) {
    line == [] || DigitValue(line[0]) < 0 ||
    (16 * acc + DigitValue(line[0]) < 0x8000_0000 && FitsInt(line[1..], 16 * acc + DigitValue(line[0])))
  }

  const UPPER: string := "0123456789ABCDEF"
  const LOWER: string := "0123456789abcdef"

  /** The value of a character: its place among the digits of either case, or -1. */
  lemma DigitValues(c: char)
    ensures forall d :: 0 <= d < 16 ==> DigitValue(UPPER[d]) == d && DigitValue(LOWER[d]) == d
    ensures DigitValue(c) < 0 <==> c !in UPPER && c !in LOWER
    ensures DigitValue(c) < 0 ==> DigitValue(c) == -1
    ensures DigitValue(c) >= 0 ==> DigitValue(c) < 16 && (c == UPPER[DigitValue(c)] || c == LOWER[DigitValue(c)])
  {
    var d := DigitValue(c);
    if d >= 0 { assert c == UPPER[d] || c == LOWER[d]; }
  }

  // The number with the given hexadecimal digits, most significant first
  function Number(vs: seq<nat>): nat {
    if vs == [] then 0 else 16 * Number(vs[..|vs| - 1]) + vs[|vs| - 1]
  }

  // The line starts with digits, of either case and mixed at will, of the number n.
  ghost predicate Spells(line: string, vs: seq<nat>, n: nat) {
    && |vs| <= |line| && Number(vs) == n
    && (forall i :: 0 <= i < |vs| ==> vs[i] < 16 && (line[i] == UPPER[vs[i]] || line[i] == LOWER[vs[i]]))
    && (|vs| < |line| ==> line[|vs|] !in UPPER && line[|vs|] !in LOWER)
  }

  /** The reader gets the number spelt, whatever follows its digits. */
  lemma SpeltNumber(line: string, vs: seq<nat>, n: nat)
    requires Spells(line, vs, n)
    ensures Parse(line, 0) == n
  {
    hide DigitValue, Parse, Number;
    assert vs[..0] == [] && line[0..] == line && Number([]) == 0 by { NoDigits(); }
    SpeltFrom(line, vs, n, 0);
  }

  // 1a reads as 26, and both cases can be mixed.
  lemma MixedCase()
    ensures Parse("1a\r\n", 0) == 26 && Spells("1aF;q", [1, 10, 15], 0x1AF)
  {
    assert Spells("1a\r\n", [1, 10], 26) by {
      assert Number([1, 10]) == 26 by { assert [1, 10][..1] == [1]; }
    }
    SpeltNumber("1a\r\n", [1, 10], 26);
    assert [1, 10, 15][..2] == [1, 10] && [1, 10][..1] == [1];
  }

  lemma NoDigits()
    ensures Number([]) == 0
  {
  }

  lemma {:induction false} SpeltFrom(line: string, vs: seq<nat>, n: nat, i: nat)
    requires Spells(line, vs, n) && i <= |vs|
    ensures Parse(line[i..], Number(vs[..i])) == n
    decreases |vs| - i
  {
    hide DigitValue;
    if i < |vs| {
      DigitValues(line[i]);
      assert vs[..i + 1][..i] == vs[..i];
      assert line[i..][1..] == line[i + 1..];
      SpeltFrom(line, vs, n, i + 1);
    } else {
      assert vs[..i] == vs;
      if i < |line| { DigitValues(line[i]); }
    }
  }

  lemma DigitRoundTrip(d: nat)
    requires d < 16
    ensures DigitValue(HexDigit(d)) == d && HexDigit(d) == UPPER[d] != '\r'
  {
  }

  /** The form of `%X`: upper-case digits without leading zeros. */
  lemma {:induction false} HexForm(n: nat)
    ensures Hex(n) != [] && (n > 0 ==> Hex(n)[0] != '0') && (n == 0 ==> Hex(n) == "0")
    ensures forall i :: 0 <= i < |Hex(n)| ==> Hex(n)[i] in UPPER
  {
    hide HexDigit;
    DigitRoundTrip(n % 16);
    if n >= 16 { HexForm(n / 16); }
    else { assert n > 0 ==> UPPER[n] != UPPER[0]; }
  }

  lemma HexRoundTrip(n: nat, rest: string)
    requires rest != [] ==> DigitValue(rest[0]) < 0
    ensures Parse(Hex(n) + rest, 0) == n
  {
    hide HexDigit, DigitValue;
    ParseHex(n, 0, rest);
    ScaleZero(n);
  }

  // acc shifted left by the digits of n
  function Scale(n: nat, acc: nat): nat {
    if n < 16 then 16 * acc else 16 * Scale(n / 16, acc)
  }

  lemma {:induction false} ParseHex(n: nat, acc: nat, rest: string)
    ensures Parse(Hex(n) + rest, acc) == Parse(rest, Scale(n, acc) + n)
    decreases n
  {
    hide HexDigit, DigitValue;
    var d := HexDigit(n % 16);
    DigitRoundTrip(n % 16);
    if n < 16 {
      assert (Hex(n) + rest)[1..] == rest;
    } else {
      assert Hex(n) + rest == Hex(n / 16) + ([d] + rest);
      ParseHex(n / 16, acc, [d] + rest);
      assert ([d] + rest)[1..] == rest;
    }
  }

  lemma {:induction false} FitsHex(n: nat, acc: nat, rest: string)
    ensures FitsInt(Hex(n) + rest, acc) <==> Scale(n, acc) + n < 0x8000_0000 && FitsInt(rest, Scale(n, acc) + n)
    decreases n
  {
    hide HexDigit, DigitValue;
    var d := HexDigit(n % 16);
    DigitRoundTrip(n % 16);
    if n < 16 {
      assert (Hex(n) + rest)[1..] == rest;
    } else {
      assert Hex(n) + rest == Hex(n / 16) + ([d] + rest);
      FitsHex(n / 16, acc, [d] + rest);
      assert ([d] + rest)[1..] == rest;
    }
  }

  lemma {:induction false} ScaleZero(n: nat)
    ensures Scale(n, 0) == 0
  {
    if n >= 16 { ScaleZero(n / 16); }
  }

  lemma {:induction false} HexNoCr(n: nat)
    ensures Hex(n) != [] && forall i :: 0 <= i < |Hex(n)| ==> Hex(n)[i] != '\r'
  {
    hide HexDigit;
    DigitRoundTrip(n % 16);
    if n >= 16 { HexNoCr(n / 16); }
  }

  // Nothing behind the first character that is no digit counts.
  lemma {:induction false} ParseStops(line: string, acc: nat, rest: string)
    requires rest != [] ==> DigitValue(rest[0]) < 0
    ensures Parse(line + rest, acc) == Parse(line, acc)
    decreases |line|
  {
    hide DigitValue;
    if line == [] {
      assert line + rest == rest;
    } else if DigitValue(line[0]) >= 0 {
      assert (line + rest)[1..] == line[1..] + rest;
      ParseStops(line[1..], 16 * acc + DigitValue(line[0]), rest);
    }
  }

  // ---------------------------------------------------------------- the coding

  /**
    A chunk on the wire: its size line without the CRLF, its data, and whether CRLF follows the
    data, as it should; the reader tolerates that it is missing. A chunk of size 0 closes the
    message; its data is the trailer section.
  */
  datatype Part = Part(line: string, data: string, crlf: bool)

  // The size that the reader gets from the line
  function Announced(p: Part): int32 { Int32(Parse(p.line, 0)) }

  // The line is one line, and the data is as long as it says.
  ghost predicate PartOk(p: Part) {
    '\r' !in p.line && (Announced(p) > 0 ==> |p.data| == Announced(p))
  }

  // A negative size ends the message without data.
  function PartText(p: Part): string {
    if Announced(p) < 0 then p.line + CRLF
    else p.line + CRLF + p.data + if p.crlf then CRLF else ""
  }

  /** The parts from k on, up to the first with a negative size. */
  function Encode(ps: seq<Part>, k: nat): string
    requires k <= |ps|
    decreases |ps| - k
  {
    if k == |ps| then ""
    else if Announced(ps[k]) < 0 then PartText(ps[k])
    else PartText(ps[k]) + Encode(ps, k + 1)
  }

  // The first k parts announce a positive size.
  ghost predicate Carried(ps: seq<Part>, k: nat) {
    k <= |ps| && forall i :: 0 <= i < k ==> Announced(ps[i]) > 0
  }

  /**
    A message: every part is in form, the last one announces no data, and where a CRLF is missing
    no empty line follows that could be taken for it.
  */
  ghost predicate Message(ps: seq<Part>) {
    && (forall i :: 0 <= i < |ps| ==> PartOk(ps[i])) && ps != [] && Announced(ps[|ps| - 1]) <= 0
    && (forall i :: 0 <= i < |ps| - 1 && !ps[i].crlf ==> ps[i + 1].line != "")
  }

  /** The number of parts before the first that announces none or a negative size. */
  ghost function Reach(ps: seq<Part>, k: nat): (n: nat)
    requires Message(ps) && Carried(ps, k)
    ensures k <= n < |ps| && Carried(ps, n) && Announced(ps[n]) <= 0
    decreases |ps| - k
  {
    if Announced(ps[k]) <= 0 then k else Reach(ps, k + 1)
  }

  function Datas(ps: seq<Part>, k: nat): (r: seq<string>)
    requires k <= |ps|
    ensures |r| == k && forall i :: 0 <= i < k ==> r[i] == ps[i].data
  {
    if k == 0 then [] else Datas(ps, k - 1) + [ps[k - 1].data]
  }

  // ---------------------------------------------------------------- what the server writes

  // `%X` of the size as an int
  function SizeLine(n: nat): string { Hex(n % WORD32) + CRLF }

  // What goes out of a string whose size is passed on as an int; nothing, with an error, if negative
  function Cast(s: string): string { if Int32(|s|) < 0 then "" else s[..Int32(|s|)] }

  function PartOf(chunk: string): Part { Part(Hex(|chunk| % WORD32), Cast(chunk), true) }

  /** The parts that WriteChunk makes of the chunks and of the empty one that closes the message. */
  function Parts(cs: seq<string>, k: nat): (ps: seq<Part>)
    requires k <= |cs|
    ensures |ps| == |cs| - k + 1 && (forall i :: k <= i < |cs| ==> ps[i - k] == PartOf(cs[i]))
    ensures ps[|cs| - k] == PartOf("")
    decreases |cs| - k
  {
    if k == |cs| then [PartOf("")] else [PartOf(cs[k])] + Parts(cs, k + 1)
  }

  lemma PartOfChunk(c: string)
    ensures PartOk(PartOf(c)) && PartOf(c).crlf && Announced(PartOf(c)) == Int32(|c|)
  {
    hide Hex, Parse;
    HexNoCr(|c| % WORD32);
    HexRoundTrip(|c| % WORD32, "");
    assert Hex(|c| % WORD32) + "" == Hex(|c| % WORD32);
  }

  lemma ServerMessage(cs: seq<string>)
    ensures Message(Parts(cs, 0))
  {
    hide PartOf, PartOk, Announced;
    var ps := Parts(cs, 0);
    forall i | 0 <= i < |ps|
      ensures PartOk(ps[i]) && ps[i].crlf
    {
      PartOfChunk(if i < |cs| then cs[i] else "");
    }
    PartOfChunk("");
  }

  /** The reader's int takes a written size line without overflow exactly when its value is below 2^31. */
  lemma SizeLineFits(n: nat)
    ensures FitsInt(SizeLine(n), 0) <==> n % WORD32 < 0x8000_0000
  {
    hide HexDigit, Hex;
    FitsHex(n % WORD32, 0, CRLF);
    ScaleZero(n % WORD32);
  }

  /** The int that the reader gets from a size line is the size exactly for sizes below 2^31. */
  lemma SizeRead(n: nat)
    ensures Int32(Parse(SizeLine(n), 0)) == n <==> n < 0x8000_0000
    ensures Int32(Parse(SizeLine(n), 0)) == Int32(n)
    ensures Int32(Parse(SizeLine(0x8000_0000), 0)) == -0x8000_0000
    ensures Int32(Parse(SizeLine(0x1_0000_0005), 0)) == 5
  {
    hide HexDigit, Hex, Parse;
    HexRoundTrip(n % WORD32, CRLF);
    HexRoundTrip(0x8000_0000 % WORD32, CRLF);
    HexRoundTrip(0x1_0000_0005 % WORD32, CRLF);
  }

  // The offset at which part k starts
  function Start(ps: seq<Part>, k: nat): nat
    requires k <= |ps|
  {
    if k == 0 then 0 else Start(ps, k - 1) + |PartText(ps[k - 1])|
  }

  function Flatten(cs: seq<string>): string {
    if cs == [] then [] else Flatten(cs[..|cs| - 1]) + cs[|cs| - 1]
  }

  lemma {:induction false} StartSplits(ps: seq<Part>, k: nat)
    requires Carried(ps, k)
    ensures |Encode(ps, 0)| == Start(ps, k) + |Encode(ps, k)| && Encode(ps, 0)[Start(ps, k)..] == Encode(ps, k)
  {
    hide PartText, Announced;
    if k > 0 {
      StartSplits(ps, k - 1);
      var t, o, c := Encode(ps, 0), Start(ps, k - 1), PartText(ps[k - 1]);
      assert t[o..] == c + Encode(ps, k);
      assert t[o + |c|..] == t[o..][|c|..];
    }
  }

  // ---------------------------------------------------------------- reading lines

  // The index of the first CRLF at or after i, or -1
  function FindCrlf(s: string, i: nat): int
    decreases |s| - i
  {
    if i + 2 > |s| then -1
    else if s[i] == '\r' && s[i + 1] == '\n' then i
    else FindCrlf(s, i + 1)
  }

  lemma FindCrlfRange(s: string, i: nat)
    ensures var e := FindCrlf(s, i); e == -1 || (i <= e && e + 2 <= |s|)
    decreases |s| - i
  {
  }

  predicate CrlfAt(s: string, j: nat) { j + 2 <= |s| && [s[j], s[j + 1]] == CRLF }

  /** It is the first, and -1 means that there is none. */
  lemma {:induction false} FirstCrlf(s: string, i: nat)
    ensures var e := FindCrlf(s, i);
      if e < 0 then e == -1 && forall j :: i <= j ==> !CrlfAt(s, j)
      else i <= e && CrlfAt(s, e) && forall j :: i <= j < e ==> !CrlfAt(s, j)
    decreases |s| - i
  {
    if i + 2 <= |s| && !(s[i] == '\r' && s[i + 1] == '\n') {
      FirstCrlf(s, i + 1);
    }
  }

  /** A line of n characters without CR ends where it should, and not before it is complete. */
  lemma {:induction false} LineFound(s: string, i: nat, n: nat)
    requires forall j :: i <= j < i + n && j < |s| ==> s[j] != '\r'
    requires i + n < |s| ==> s[i + n] == '\r'
    requires i + n + 1 < |s| ==> s[i + n + 1] == '\n'
    ensures FindCrlf(s, i) == if i + n + 2 <= |s| then i + n else -1
    decreases n
  {
    if n > 0 { LineFound(s, i + 1, n - 1); }
    else if i + 2 > |s| { }
  }

  // ---------------------------------------------------------------- the reader

  // Thrown: std::string was asked for a negative length, as a size_t
  datatype Phase = Body | End | Thrown

  datatype Reader = Reader(str: string, offset: nat, length: int, phase: Phase, chunks: seq<string>)

  predicate ReaderOk(r: Reader) { r.offset <= |r.str| }

  // A size line, if the reader is at one and it is complete
  function TakeSize(r: Reader): Reader
    requires ReaderOk(r) && FindCrlf(r.str, r.offset) >= 0
  {
    var e := FindCrlf(r.str, r.offset);
    FindCrlfRange(r.str, r.offset);
    r.(offset := e + 2, length := Int32(Parse(r.str[r.offset..e + 2], 0)))
  }

  // `offset + chunk_length + 2 <= str.size()`, where a negative sum wraps to a huge size_t
  predicate Arrived(r: Reader) { 0 <= r.offset + r.length + 2 <= |r.str| }

  // The chunk's data and, if it is there, the CRLF that follows
  function TakeData(r: Reader): Reader
    requires ReaderOk(r) && r.length > 0 && Arrived(r)
  {
    var o := r.offset + r.length;
    var skip := if r.str[o] == '\r' && r.str[o + 1] == '\n' then 2 else 0;
    r.(offset := o + skip, length := 0, chunks := r.chunks + [r.str[r.offset..o]])
  }

  /** What UpdateMessage does in the chunked body, as far as the received bytes go. */
  function Update(r: Reader): (u: Reader)
    requires ReaderOk(r)
    ensures ReaderOk(u)
    decreases |r.str| - r.offset, 1
  {
    if !r.phase.Body? then r
    else if r.length > 0 then Continue(r)
    else if FindCrlf(r.str, r.offset) < 0 then r
    else
      FindCrlfRange(r.str, r.offset);
      Continue(TakeSize(r))
  }

  // The part after the size is known
  function Continue(r: Reader): (u: Reader)
    requires ReaderOk(r)
    ensures ReaderOk(u)
    decreases |r.str| - r.offset, 0
  {
    if r.length == 0 then r.(phase := End)
    else if !Arrived(r) then r
    else if r.length < 0 then r.(phase := Thrown)
    else Update(TakeData(r))
  }

  /** Bytes arrive in pieces, and the reader is updated after each. */
  function FeedAll(r: Reader, pieces: seq<string>): Reader
    requires ReaderOk(r)
    decreases |pieces|
  {
    if pieces == [] then r
    else FeedAll(Update(r.(str := r.str + pieces[0])), pieces[1..])
  }

  function Concat(pieces: seq<string>): string {
    if pieces == [] then [] else pieces[0] + Concat(pieces[1..])
  }
}
