/**
 * Base64 with the standard alphabet of section 4 of RFC 4648.
 *
 * `Encode` is the canonical, padded encoding (Python's `base64.b64encode`).
 * `Decode` is the decoder behind Python's `base64.b64decode(s)` with its
 * default `validate=False`, i.e. CPython's `binascii.a2b_base64` in
 * non-strict mode: characters outside the alphabet are skipped, a pad that
 * comes too early is ignored, the first pad run that completes a quantum ends
 * decoding (whatever follows is ignored), and an unfinished final quantum is
 * an error.
 */
module Base64 {
  import opened Prelude

  /** The alphabet character for sextet value `v`: A-Z, a-z, 0-9, '+', '/'. */
  function Char(v: nat): (c: char)
    requires v < 64
    ensures IsAlphabet(c)
  {
    if v < 26 then ('A' as int + v) as char
    else if v < 52 then ('a' as int + v - 26) as char
    else if v < 62 then ('0' as int + v - 52) as char
    else if v == 62 then '+'
    else '/'
  }

  predicate IsAlphabet(c: char)
  {
    'A' <= c <= 'Z' || 'a' <= c <= 'z' || '0' <= c <= '9' || c == '+' || c == '/'
  }

  /** The sextet value an alphabet character stands for; `Char` is its inverse. */
  function Sextet(c: char): (v: nat)
    requires IsAlphabet(c)
    ensures v < 64 && Char(v) == c
  {
    if 'A' <= c <= 'Z' then c as int - 'A' as int
    else if 'a' <= c <= 'z' then c as int - 'a' as int + 26
    else if '0' <= c <= '9' then c as int - '0' as int + 52
    else if c == '+' then 62
    else 63
  }

  /** `Sextet` undoes `Char`, so the two are a bijection between 0..63 and the alphabet. */
  lemma SextetOfChar(v: nat)
    requires v < 64
    ensures Sextet(Char(v)) == v
  {
  }

  /** A string made of alphabet characters only: no pad, nothing the decoder skips. */
  predicate IsData(s: string)
  {
    forall i :: 0 <= i < |s| ==> IsAlphabet(s[i])
  }

  /** The '=' that end the canonical encoding of `n` octets: none, two or one, by `n % 3`. */
  function Padding(n: nat): (p: string)
    ensures |p| == (3 - n % 3) % 3
  {
    if n % 3 == 0 then "" else if n % 3 == 1 then "==" else "="
  }

  /**
   * The sextets of one group of one to three octets: the group's bits read
   * six at a time, the last sextet completed with zero bits.
   */
  function Sextets(g: seq<byte>): (v: seq<nat>)
    requires 1 <= |g| <= 3
    ensures |v| == |g| + 1
    ensures forall i :: 0 <= i < |v| ==> v[i] < 64
  {
    if |g| == 1 then [g[0] / 4, g[0] % 4 * 16]
    else if |g| == 2 then [g[0] / 4, g[0] % 4 * 16 + g[1] / 16, g[1] % 16 * 4]
    else [g[0] / 4, g[0] % 4 * 16 + g[1] / 16, g[1] % 16 * 4 + g[2] / 64, g[2] % 64]
  }

  /** Sextet values written as alphabet characters. */
  function Spell(v: seq<nat>): (s: string)
    requires forall i :: 0 <= i < |v| ==> v[i] < 64
    ensures |s| == |v| && IsData(s)
  {
    seq(|v|, i requires 0 <= i < |v| => Char(v[i]))
  }

  /** The number of four-character quanta that encode `n` octets. */
  function Quanta(n: nat): nat
  {
    n / 3 + (if n % 3 == 0 then 0 else 1)
  }

  lemma QuadrupleMod(k: nat)
    ensures (k * 4) % 4 == 0
  {
  }

  /** The data characters and the pads of `b` fill whole quanta. */
  lemma PaddedLength(b: seq<byte>)
    ensures |Unpadded(b)| + |Padding(|b|)| == Quanta(|b|) * 4
    ensures (Quanta(|b|) * 4) % 4 == 0
  {
    UnpaddedLength(b);
    QuadrupleMod(Quanta(|b|));
  }

  lemma ModThree(n: nat)
    requires n >= 3
    ensures (n - 3) % 3 == n % 3 && (n - 3) / 3 == n / 3 - 1
  {
  }

  /**
   * The data characters of the encoding, without the trailing '=' (what an
   * encoder told to omit padding emits): one sextet character per six bits.
   */
  function Unpadded(b: seq<byte>): (s: string)
    ensures IsData(s)
    decreases |b|
  {
    if |b| == 0 then []
    else if |b| <= 3 then Spell(Sextets(b))
    else Spell(Sextets(b[..3])) + Unpadded(b[3..])
  }

  /** Four characters per full group, then two or three for a final group of one or two octets. */
  lemma {:induction false} UnpaddedLength(b: seq<byte>)
    ensures |Unpadded(b)| == |b| / 3 * 4 + [0, 2, 3][|b| % 3]
    decreases |b|
  {
    if |b| > 3 {
      ModThree(|b|);
      UnpaddedLength(b[3..]);
    }
  }

  lemma MulAddMod(q: nat, r: nat)
    requires r < 4
    ensures (q * 4 + r) % 4 == r
  {
  }

  /** Without padding, the length modulo 4 tells how many octets the final group holds. */
  lemma UnpaddedRemainder(b: seq<byte>)
    ensures |Unpadded(b)| % 4 == [0, 2, 3][|b| % 3]
  {
    UnpaddedLength(b);
    MulAddMod(|b| / 3, [0, 2, 3][|b| % 3]);
  }

  /** The canonical encoding: the data characters, then '=' up to a multiple of four. */
  function Encode(b: seq<byte>): (s: string)
    ensures |s| == Quanta(|b|) * 4
    ensures |s| % 4 == 0
  {
    PaddedLength(b);
    Unpadded(b) + Padding(|b|)
  }

  datatype DecodeError =
    | IncorrectPadding
      /** one data character too many for a quantum; carries the count the message reports */
    | ExcessDataCharacter(dataChars: nat)

  /** `str()` of the `binascii.Error` raised for each decoding error. */
  function Message(e: DecodeError): (m: string)
    ensures e.IncorrectPadding? <==> m == "Incorrect padding"
    ensures e.ExcessDataCharacter? ==> "Invalid base64-encoded string: number of data characters (" <= m
  {
    if e.IncorrectPadding? then "Incorrect padding"
    else
      "Invalid base64-encoded string: number of data characters (" + Decimal(e.dataChars)
        + ") cannot be 1 more than a multiple of 4"
  }

  /**
   * The decoder's registers: the position inside the current quantum, the
   * bits still owed to the next octet, how many pads have been seen since
   * the last data character (counted only from quantum position 2 on), and
   * the octets written so far.
   */
  datatype Decoder = Decoder(quadPos: nat, leftChar: nat, pads: nat, out: seq<byte>)

  const Start := Decoder(0, 0, 0, [])

  /**
   * One data character of value `v`. Each octet is the bitwise OR of two
   * disjoint bit fields, written here as a sum, stored into an unsigned char.
   */
  function Feed(d: Decoder, v: nat): (r: Decoder)
    requires v < 64
    ensures r.quadPos == if d.quadPos >= 3 then 0 else d.quadPos + 1
    ensures r.pads == 0
    ensures d.out <= r.out && |r.out| == |d.out| + (if d.quadPos == 0 then 0 else 1)
  {
    match d.quadPos
    case 0 => Decoder(1, v, 0, d.out)
    case 1 => Decoder(2, v % 16, 0, d.out + [(d.leftChar * 4 + v / 16) % 256])
    case 2 => Decoder(3, v % 4, 0, d.out + [(d.leftChar * 16 + v / 4) % 256])
    case _ => Decoder(0, 0, 0, d.out + [(d.leftChar * 64 + v) % 256])
  }

  /** End of input: only a finished quantum is accepted. */
  function Finish(d: Decoder): (r: Result<seq<byte>, DecodeError>)
    ensures r.Success? <==> d.quadPos == 0
    ensures r.Success? ==> r.value == d.out
  {
    if d.quadPos == 0 then Success(d.out)
    else if d.quadPos == 1 then Failure(ExcessDataCharacter(|d.out| / 3 * 4 + 1))
    else Failure(IncorrectPadding)
  }

  /** The decoding loop over the remaining characters `s`. */
  function Run(s: string, d: Decoder): (r: Result<seq<byte>, DecodeError>)
    ensures r.Success? ==> d.out <= r.value && |r.value| <= |d.out| + |s|
    decreases |s|
  {
    if |s| == 0 then Finish(d)
    else if s[0] == '=' then
      if d.quadPos >= 2 && d.quadPos + d.pads + 1 >= 4 then Success(d.out)
      else Run(s[1..], if d.quadPos >= 2 then d.(pads := d.pads + 1) else d)
    else if !IsAlphabet(s[0]) then Run(s[1..], d)
    else Run(s[1..], Feed(d, Sextet(s[0])))
  }

  function Decode(s: string): (r: Result<seq<byte>, DecodeError>)
    ensures r.Success? ==> |r.value| <= |s|
  {
    Run(s, Start)
  }

  /** The decoder's registers after it has read the data characters `s`. */
  function FeedAll(d: Decoder, s: string): Decoder
    requires IsData(s)
    decreases |s|
  {
    if |s| == 0 then d else FeedAll(Feed(d, Sextet(s[0])), s[1..])
  }

  /** Data characters are consumed one by one, in order, whatever follows them. */
  lemma {:induction false} RunData(s: string, t: string, d: Decoder)
    requires IsData(s)
    ensures Run(s + t, d) == Run(t, FeedAll(d, s))
    decreases |s|
  {
    if |s| == 0 {
      assert s + t == t;
    } else {
      assert (s + t)[0] == s[0];
      assert (s + t)[1..] == s[1..] + t;
      RunData(s[1..], t, Feed(d, Sextet(s[0])));
    }
  }

  /** The quantum position advances by one per data character and pads are reset. */
  lemma {:induction false} FeedAllPosition(d: Decoder, s: string)
    requires IsData(s) && d.quadPos < 4
    ensures FeedAll(d, s).quadPos == (d.quadPos + |s|) % 4
    ensures |s| > 0 ==> FeedAll(d, s).pads == 0
    decreases |s|
  {
    if |s| > 0 {
      var next := Feed(d, Sextet(s[0]));
      assert next.quadPos == (d.quadPos + 1) % 4 && next.pads == 0;
      FeedAllPosition(next, s[1..]);
      NextQuadPos(d.quadPos, |s| - 1);
    }
  }

  /** Moving one place round the quantum and then `n` more is moving `n + 1` places. */
  lemma NextQuadPos(q: nat, n: nat)
    requires q < 4
    ensures ((q + 1) % 4 + n) % 4 == (q + n + 1) % 4
  {
    if q == 3 {
      assert (q + n + 1) % 4 == (n + 4) % 4 == n % 4;
    }
  }

  /**
   * Data of length 2 modulo 4 followed by a single '=' is one pad short of a
   * quantum, and the decoder refuses it.
   */
  lemma OnePadShort(s: string)
    requires IsData(s) && |s| % 4 == 2
    ensures Decode(s + "=") == Failure(IncorrectPadding)
  {
    RunData(s, "=", Start);
    FeedAllPosition(Start, s);
  }

  /**
   * Data of length 3 modulo 4 is completed by its first '='; a second '='
   * is ignored, so the over-padded text decodes like the correctly padded one.
   */
  lemma OverPadded(s: string)
    requires IsData(s) && |s| % 4 == 3
    ensures Decode(s + "==") == Decode(s + "=") == Success(FeedAll(Start, s).out)
  {
    RunData(s, "==", Start);
    RunData(s, "=", Start);
    FeedAllPosition(Start, s);
  }

  /** Reading one data character in front of others. */
  lemma FeedAllCons(d: Decoder, c: char, s: string)
    requires IsAlphabet(c) && IsData(s)
    ensures IsData([c] + s)
    ensures FeedAll(d, [c] + s) == FeedAll(Feed(d, Sextet(c)), s)
  {
    assert ([c] + s)[1..] == s;
  }

  /** Reading two runs of data characters is reading their concatenation. */
  lemma {:induction false} FeedAllAppend(d: Decoder, s: string, w: string)
    requires IsData(s) && IsData(w)
    ensures IsData(s + w)
    ensures FeedAll(d, s + w) == FeedAll(FeedAll(d, s), w)
    decreases |s|
  {
    assert IsData(s + w) by {
      forall i | 0 <= i < |s + w| ensures IsAlphabet((s + w)[i]) {
        if i >= |s| { assert (s + w)[i] == w[i - |s|]; }
      }
    }
    if |s| > 0 {
      assert (s + w)[1..] == s[1..] + w;
      FeedAllAppend(Feed(d, Sextet(s[0])), s[1..], w);
    } else {
      assert s + w == w;
    }
  }

  /** Reading sextet values one at a time, without going through characters. */
  function FeedValues(d: Decoder, v: seq<nat>): Decoder
    requires forall i :: 0 <= i < |v| ==> v[i] < 64
    decreases |v|
  {
    if |v| == 0 then d else FeedValues(Feed(d, v[0]), v[1..])
  }

  /** Reading spelled sextets is reading the sextets. */
  lemma {:induction false} FeedAllSpell(d: Decoder, v: seq<nat>)
    requires forall i :: 0 <= i < |v| ==> v[i] < 64
    ensures FeedAll(d, Spell(v)) == FeedValues(d, v)
    decreases |v|
  {
    if |v| > 0 {
      var s := Spell(v);
      assert s == [Char(v[0])] + Spell(v[1..]);
      SextetOfChar(v[0]);
      FeedAllCons(d, Char(v[0]), Spell(v[1..]));
      FeedAllSpell(Feed(d, v[0]), v[1..]);
    }
  }

  /** `q * 16 + r` and `q * 4 + r` split back into quotient and remainder. */
  lemma DivMod16(q: nat, r: nat)
    requires r < 16
    ensures (q * 16 + r) / 16 == q && (q * 16 + r) % 16 == r
  {
  }

  lemma DivMod4(q: nat, r: nat)
    requires r < 4
    ensures (q * 4 + r) / 4 == q && (q * 4 + r) % 4 == r
  {
  }

  /** Where the decoder stands after the data characters of `n` octets: a group boundary or inside one. */
  function QuadAfter(n: nat): nat
  {
    if n % 3 == 0 then 0 else n % 3 + 1
  }

  /** The second sextet of a group completes its first octet. */
  lemma SecondSextet(out: seq<byte>, x: byte, y: byte)
    ensures Feed(Decoder(1, x / 4, 0, out), x % 4 * 16 + y / 16) == Decoder(2, y / 16, 0, out + [x])
  {
    DivMod16(x % 4, y / 16);
  }

  /** The third sextet of a group completes its second octet. */
  lemma ThirdSextet(out: seq<byte>, y: byte, z: byte)
    ensures Feed(Decoder(2, y / 16, 0, out), y % 16 * 4 + z / 64) == Decoder(3, z / 64, 0, out + [y])
  {
    DivMod4(y % 16, z / 64);
  }

  /** The fourth sextet of a group completes its third octet. */
  lemma FourthSextet(out: seq<byte>, z: byte)
    ensures Feed(Decoder(3, z / 64, 0, out), z % 64) == Decoder(0, 0, 0, out + [z])
  {
  }

  /** Unfolds `FeedValues` by one step. */
  lemma FeedValuesCons(d: Decoder, v: seq<nat>)
    requires 0 < |v| && forall i :: 0 <= i < |v| ==> v[i] < 64
    ensures FeedValues(d, v) == FeedValues(Feed(d, v[0]), v[1..])
  {
  }

  /** The registers after the sextets of one group, from a quantum boundary. */
  lemma FeedGroup(g: seq<byte>, out: seq<byte>)
    requires 1 <= |g| <= 3
    ensures FeedValues(Decoder(0, 0, 0, out), Sextets(g)) == Decoder(QuadAfter(|g|), 0, 0, out + g)
  {
    var v := Sextets(g);
    var x := g[0];
    var y: byte := if |g| >= 2 then g[1] else 0;
    var z: byte := if |g| == 3 then g[2] else 0;
    assert v[0] == x / 4 && v[1] == x % 4 * 16 + y / 16;
    FeedValuesCons(Decoder(0, 0, 0, out), v);
    FeedValuesCons(Decoder(1, x / 4, 0, out), v[1..]);
    SecondSextet(out, x, y);
    assert v[1..][1..] == v[2..];
    var d2 := Decoder(2, y / 16, 0, out + [x]);
    if |g| == 1 {
      assert v[2..] == [];
      assert [x] == g;
    } else {
      assert v[2] == y % 16 * 4 + z / 64;
      FeedValuesCons(d2, v[2..]);
      ThirdSextet(out + [x], y, z);
      assert v[2..][1..] == v[3..];
      var d3 := Decoder(3, z / 64, 0, out + [x] + [y]);
      if |g| == 2 {
        assert v[3..] == [];
        assert [x] + [y] == g;
      } else {
        assert v[3] == z % 64;
        FeedValuesCons(d3, v[3..]);
        FourthSextet(out + [x] + [y], z);
        assert v[3..][1..] == [];
        assert [x] + [y] + [z] == g;
      }
    }
  }

  /** The data characters of `b` deliver exactly the octets of `b`, from a quantum boundary. */
  lemma {:induction false} FeedUnpadded(b: seq<byte>, out: seq<byte>)
    ensures FeedAll(Decoder(0, 0, 0, out), Unpadded(b)) == Decoder(QuadAfter(|b|), 0, 0, out + b)
    decreases |b|
  {
    var d := Decoder(0, 0, 0, out);
    if |b| == 0 {
      assert out + b == out;
    } else if |b| <= 3 {
      FeedAllSpell(d, Sextets(b));
      FeedGroup(b, out);
    } else {
      var g := b[..3];
      var first, rest := Spell(Sextets(g)), Unpadded(b[3..]);
      assert Unpadded(b) == first + rest;
      FeedAllAppend(d, first, rest);
      FeedAllSpell(d, Sextets(g));
      FeedGroup(g, out);
      ModThree(|b|);
      FeedUnpadded(b[3..], out + g);
      assert out + g + b[3..] == out + b;
    }
  }

  /** The canonical padding completes the quantum the data characters left open. */
  lemma PadsAccepted(n: nat, out: seq<byte>)
    ensures Run(Padding(n), Decoder(QuadAfter(n), 0, 0, out)) == Success(out)
  {
    var pads := Padding(n);
    var d := Decoder(QuadAfter(n), 0, 0, out);
    if n % 3 == 0 {
      assert pads == [];
    } else if n % 3 == 1 {
      assert pads == "==";
      assert pads[1..] == "=";
    } else {
      assert pads == "=";
    }
  }

  /** Round trip: the decoder gives back exactly the octets the canonical encoder was given. */
  lemma DecodeEncode(b: seq<byte>)
    ensures Decode(Encode(b)) == Success(b)
  {
    RunData(Unpadded(b), Padding(|b|), Start);
    FeedUnpadded(b, []);
    assert [] + b == b;
    PadsAccepted(|b|, b);
  }
}
