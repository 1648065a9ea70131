/** micropython/extmod/modbinascii.c: base64 as in section 4 of RFC 4648. */
module Base64 {
  import opened Common

  const PAD: bv8 := 61
  const NEWLINE: bv8 := 10

  // ----- the alphabet

  /** mod_binascii_sextet: the value of a character of the alphabet. */
  function Sextet(ch: bv8): (v: Option<bv8>)
    ensures v.Some? ==> v.value < 64
  {
    if 65 <= ch && ch <= 90 then Some(ch - 65)
    else if 97 <= ch && ch <= 122 then Some(ch - 97 + 26)
    else if 48 <= ch && ch <= 57 then Some(ch - 48 + 52)
    else if ch == 43 then Some(62)
    else if ch == 47 then Some(63)
    else None
  }

  /** The character for a value; anything from 64 on is the pad. */
  function Letter(v: bv8): bv8 {
    if v < 26 then v + 65
    else if v < 52 then v + (97 - 26)
    else if v < 62 then v - 4
    else if v == 62 then 43
    else if v == 63 then 47
    else PAD
  }

  lemma LetterSextet(v: bv8)
    requires v < 64
    ensures Sextet(Letter(v)) == Some(v) && Letter(v) != PAD
  {
  }

  lemma OthersHaveNoValue()
    ensures Sextet(PAD).None? && Sextet(NEWLINE).None? && Letter(64) == PAD
  {
  }

  const UPPER := "ABCDEFGHIJKLMNOPQRSTUVWXYZ"
  const LOWER := "abcdefghijklmnopqrstuvwxyz"
  const DIGITS := "0123456789"

  /** The alphabet of section 4 of RFC 4648. */
  const ALPHABET := UPPER + LOWER + DIGITS + "+/"

  /** Value v stands for character v of the alphabet, 64 for the pad. */
  lemma LetterIs(v: bv8)
    requires v < 64
    ensures |ALPHABET| == 64 && Letter(v) as int == ALPHABET[v as int] as int && Letter(64) as int == '=' as int
  {
    LetterCode(v);
    var k := v as int;
    if k < 26 {
      assert ALPHABET[k] == UPPER[k];
    } else if k < 52 {
      assert ALPHABET[k] == LOWER[k - 26];
    } else if k < 62 {
      assert ALPHABET[k] == DIGITS[k - 52];
    }
  }

  lemma LetterCode(v: bv8)
    requires v < 64
    ensures var k := v as int;
            Letter(v) as int == if k < 26 then k + 65 else if k < 52 then k + 71 else if k < 62 then k - 4
                                else if k == 62 then 43 else 47
  {
  }

  // ----- encoding

  function First(a: bv8): bv8 { (a & 0xFC) >> 2 }
  function Second(a: bv8, b: bv8): bv8 { ((a & 0x03) << 4) | ((b & 0xF0) >> 4) }
  function Third(b: bv8, c: bv8): bv8 { ((b & 0x0F) << 2) | ((c & 0xC0) >> 6) }
  function Fourth(c: bv8): bv8 { c & 0x3F }

  /** Three bytes and their four values are the same 24 bits. */
  lemma GroupBits(a: bv8, b: bv8, c: bv8)
    ensures First(a) < 64 && Second(a, b) < 64 && Third(b, c) < 64 && Fourth(c) < 64
    ensures ((First(a) as bv32) << 18) | ((Second(a, b) as bv32) << 12)
         | ((Third(b, c) as bv32) << 6) | (Fourth(c) as bv32)
         == ((a as bv32) << 16) | ((b as bv32) << 8) | (c as bv32)
  {
  }

  /** The values of a byte string, 64 standing for a pad. */
  function Values(data: seq<bv8>): (r: seq<bv8>)
    ensures |r| == 4 * ((|data| + 2) / 3)
  {
    if data == [] then []
    else if |data| == 1 then [First(data[0]), Second(data[0], 0), 64, 64]
    else if |data| == 2 then [First(data[0]), Second(data[0], data[1]), Third(data[1], 0), 64]
    else [First(data[0]), Second(data[0], data[1]), Third(data[1], data[2]), Fourth(data[2])] + Values(data[3..])
  }

  function Letters(values: seq<bv8>): (r: seq<bv8>)
    ensures |r| == |values|
  {
    seq(|values|, i requires 0 <= i < |values| => Letter(values[i]))
  }

  function Encoded(data: seq<bv8>, newline: bool): seq<bv8> {
    Letters(Values(data)) + if newline then [NEWLINE] else []
  }

  /** Four values go to the buffer. */
  method Put(out: array<bv8>, o: nat, w: bv8, x: bv8, y: bv8, z: bv8)
    requires o + 4 <= out.Length
    modifies out
    ensures out[..o + 4] == old(out[..o]) + [w, x, y, z]
  {
    out[o] := w;
    out[o + 1] := x;
    out[o + 2] := y;
    out[o + 3] := z;
  }

  lemma ValuesStep(data: seq<bv8>, at: nat)
    requires at + 3 <= |data|
    ensures Values(data[at..]) ==
            [First(data[at]), Second(data[at], data[at + 1]), Third(data[at + 1], data[at + 2]),
              Fourth(data[at + 2])] + Values(data[at + 3..])
  {
    hide First, Second, Third, Fourth;
    assert data[at..][3..] == data[at + 3..];
  }

  lemma ShortGroups(a: bv8, b: bv8)
    ensures (a & 0x03) << 4 == Second(a, 0) && (b & 0x0F) << 2 == Third(b, 0)
  {
  }

  /** The first pass of the encoder: values into the buffer. */
  method FillValues(data: seq<bv8>, out: array<bv8>)
    requires out.Length >= |Values(data)|
    modifies out
    ensures out[..|Values(data)|] == Values(data)
  {
    hide Values, First, Second, Third, Fourth;
    var at, o := 0, 0;
    assert data[0..] == data;
    while |data| - at >= 3
      invariant 0 <= at <= |data| && 0 <= o <= out.Length
      invariant out[..o] + Values(data[at..]) == Values(data)
      decreases |data| - at
    {
      ValuesStep(data, at);
      assert |out[..o] + Values(data[at..])| == |Values(data)|;
      Put(out, o, First(data[at]), Second(data[at], data[at + 1]), Third(data[at + 1], data[at + 2]),
        Fourth(data[at + 2]));
      o := o + 4;
      at := at + 3;
    }
    var i := |data| - at;
    ghost var rest := data[at..];
    ghost var done := out[..o];
    assert |done + Values(rest)| == |Values(data)|;
    if i != 0 {
      ShortGroups(data[at], if i == 2 then data[at + 1] else 0);
      ValuesShort(rest);
      if i == 2 {
        Put(out, o, First(data[at]), Second(data[at], data[at + 1]), (data[at + 1] & 0x0F) << 2, 64);
      } else {
        Put(out, o, First(data[at]), (data[at] & 0x03) << 4, 64, 64);
      }
    } else {
      ValuesShort(rest);
    }
  }

  lemma ValuesShort(data: seq<bv8>)
    requires |data| <= 2
    ensures Values(data) ==
            if data == [] then []
            else if |data| == 1 then [First(data[0]), Second(data[0], 0), 64, 64]
            else [First(data[0]), Second(data[0], data[1]), Third(data[1], 0), 64]
  {
  }

  /** The second pass: characters in place of the values. */
  method ToLetters(out: array<bv8>, n: nat)
    requires n <= out.Length
    modifies out
    ensures out[..n] == Letters(old(out[..n]))
  {
    hide Letter;
    var j := 0;
    while j < n
      invariant 0 <= j <= n
      invariant forall k :: 0 <= k < j ==> out[k] == Letter(old(out[k]))
      invariant forall k :: j <= k < n ==> out[k] == old(out[k])
    {
      out[j] := Letter(out[j]);
      j := j + 1;
    }
  }

  /** b2a_base64: values first, then characters in place, then the newline. */
  method Encode(data: seq<bv8>, newline: bool) returns (r: seq<bv8>)
    ensures r == Encoded(data, newline)
  {
    hide Values, Letters;
    var n := if |data| != 0 then ((|data| - 1) / 3 + 1) * 4 else 0;
    var out := new bv8[n + if newline then 1 else 0];
    assert n == |Values(data)|;
    FillValues(data, out);
    ToLetters(out, n);
    if newline {
      out[n] := NEWLINE;
      assert out[..] == out[..n] + [NEWLINE];
    } else {
      assert out[..] == out[..n] + [];
    }
    r := out[..];
  }

  // ----- decoding

  function Push(x: bv8, rest: Option<seq<bv8>>): Option<seq<bv8>> {
    if rest.None? then None else Some([x] + rest.value)
  }

  /** What the decoder makes of the characters left, from its state; None is the padding error. */
  function Decoded(data: seq<bv8>, shift: bv32, nbits: nat, hadpad: bool): Option<seq<bv8>>
    requires nbits < 8
    decreases |data|
  {
    if data == [] then if nbits == 0 then Some([]) else None
    else if data[0] == PAD && (nbits == 2 || (nbits == 4 && hadpad)) then Some([])
    else
      var v := Sextet(data[0]);
      if v.None? then Decoded(data[1..], shift, nbits, hadpad || data[0] == PAD)
      else
        var s := Shifted(shift, v.value);
        if nbits < 2 then Decoded(data[1..], s, nbits + 6, false)
        else Push(Top(s, nbits - 2), Decoded(data[1..], s, nbits - 2, false))
  }

  function Shifted(shift: bv32, v: bv8): bv32 { (shift << 6) | (v as bv32) }

  function Top(shift: bv32, nbits: nat): bv8
    requires nbits < 8
  {
    ((shift >> nbits) & 0xFF) as bv8
  }

  /** a2b_base64: the output never outgrows its buffer of len * 3 / 4 + 1 bytes. */
  method Decode(data: seq<bv8>) returns (r: Option<seq<bv8>>)
    ensures r == Decoded(data, 0, 0, false)
    ensures r.Some? ==> |r.value| <= |data| * 3 / 4
  {
    hide Decoded, Sextet, Shifted, Top;
    var out := new bv8[|data| * 3 / 4 + 1];
    var n := 0;
    var shift: bv32, nbits: nat, hadpad := 0, 0, false;
    var i := 0;
    assert data[0..] == data;
    JoinedEmpty(Decoded(data, 0, 0, false));
    assert out[..0] == [];
    while i < |data|
      invariant 0 <= i <= |data| && nbits < 8 && 0 <= n <= out.Length && 8 * n + nbits <= 6 * i
      invariant Decoded(data, 0, 0, false) == Joined(out[..n], Decoded(data[i..], shift, nbits, hadpad))
    {
      ghost var rest := data[i..];
      assert rest[0] == data[i] && rest[1..] == data[i + 1..];
      DecodedStep(rest, shift, nbits, hadpad);
      if data[i] == PAD {
        if nbits == 2 || (nbits == 4 && hadpad) {
          assert out[..n] + [] == out[..n];
          return Some(out[..n]);
        }
        hadpad := true;
      }
      var v := Sextet(data[i]);
      if v.Some? {
        hadpad := false;
        shift := Shifted(shift, v.value);
        nbits := nbits + 6;
        if nbits >= 8 {
          nbits := nbits - 8;
          ghost var done := out[..n];
          out[n] := Top(shift, nbits);
          n := n + 1;
          assert out[..n] == done + [Top(shift, nbits)];
          JoinedPush(done, Top(shift, nbits), Decoded(rest[1..], shift, nbits, hadpad));
        }
      }
      i := i + 1;
    }
    DecodedEnd(shift, nbits, hadpad);
    assert data[i..] == [];
    if nbits != 0 {
      return None;
    }
    assert out[..n] + [] == out[..n];
    return Some(out[..n]);
  }

  function Joined(done: seq<bv8>, rest: Option<seq<bv8>>): Option<seq<bv8>> {
    if rest.None? then None else Some(done + rest.value)
  }

  lemma JoinedEmpty(rest: Option<seq<bv8>>)
    ensures Joined([], rest) == rest
  {
    if rest.Some? {
      assert [] + rest.value == rest.value;
    }
  }

  lemma JoinedPush(done: seq<bv8>, x: bv8, rest: Option<seq<bv8>>)
    ensures Joined(done, Push(x, rest)) == Joined(done + [x], rest)
  {
    if rest.Some? {
      assert done + ([x] + rest.value) == done + [x] + rest.value;
    }
  }

  lemma DecodedStep(data: seq<bv8>, shift: bv32, nbits: nat, hadpad: bool)
    requires data != [] && nbits < 8
    ensures Decoded(data, shift, nbits, hadpad) ==
            if data[0] == PAD && (nbits == 2 || (nbits == 4 && hadpad)) then Some([])
            else if Sextet(data[0]).None? then Decoded(data[1..], shift, nbits, hadpad || data[0] == PAD)
            else
              var s := Shifted(shift, Sextet(data[0]).value);
              if nbits < 2 then Decoded(data[1..], s, nbits + 6, false)
              else Push(Top(s, nbits - 2), Decoded(data[1..], s, nbits - 2, false))
  {
  }

  lemma DecodedEnd(shift: bv32, nbits: nat, hadpad: bool)
    requires nbits < 8
    ensures Decoded([], shift, nbits, hadpad) == if nbits == 0 then Some([]) else None
  {
  }

  // ----- the round trip

  /** Whatever was shifted in before, the next four values give back the three bytes. */
  lemma GroupBack(s: bv32, a: bv8, b: bv8, c: bv8)
    ensures var s1 := Shifted(Shifted(s, First(a)), Second(a, b));
            && Top(s1, 4) == a && Top(Shifted(s1, Third(b, c)), 2) == b
            && Top(Shifted(Shifted(s1, Third(b, c)), Fourth(c)), 0) == c
  {
  }

  /** One character of the alphabet. */
  lemma DecodeLetter(v: bv8, rest: seq<bv8>, shift: bv32, nbits: nat, hadpad: bool)
    requires v < 64 && nbits < 8
    ensures Decoded([Letter(v)] + rest, shift, nbits, hadpad) ==
            if nbits < 2 then Decoded(rest, Shifted(shift, v), nbits + 6, false)
            else Push(Top(Shifted(shift, v), nbits - 2), Decoded(rest, Shifted(shift, v), nbits - 2, false))
  {
    hide Letter, Sextet, Shifted, Top;
    LetterSextet(v);
    var data := [Letter(v)] + rest;
    assert data[1..] == rest;
    DecodedStep(data, shift, nbits, hadpad);
  }

  lemma {:induction false} RoundTripFrom(data: seq<bv8>, newline: bool, shift: bv32, hadpad: bool)
    ensures Decoded(Encoded(data, newline), shift, 0, hadpad) == Some(data)
    decreases |data|
  {
    hide *;
    var end := if newline then [NEWLINE] else [];
    EncodedForm(data, newline);
    if data == [] {
      DecodeEnd(end, shift, hadpad);
    } else if |data| == 1 {
      DecodeOne(data[0], end, shift, hadpad);
      assert data == [data[0]];
    } else if |data| == 2 {
      DecodeTwo(data[0], data[1], end, shift, hadpad);
      assert data == [data[0], data[1]];
    } else {
      var s := DecodeThree(data[0], data[1], data[2], Encoded(data[3..], newline), shift, hadpad);
      RoundTripFrom(data[3..], newline, s, false);
      PushThree(data);
    }
  }

  lemma PushThree(data: seq<bv8>)
    requires |data| >= 3
    ensures Push(data[0], Push(data[1], Push(data[2], Some(data[3..])))) == Some(data)
  {
    assert data == [data[0]] + ([data[1]] + ([data[2]] + data[3..]));
  }

  lemma Nested(w: bv8, x: bv8, y: bv8, z: bv8, rest: seq<bv8>)
    ensures [w, x, y, z] + rest == [w] + ([x] + ([y] + ([z] + rest)))
    ensures [w, x, y, z] + rest == [w] + ([x] + ([y, z] + rest))
  {
  }

  lemma LettersFour(w: bv8, x: bv8, y: bv8, z: bv8)
    ensures Letters([w, x, y, z]) == [Letter(w), Letter(x), Letter(y), Letter(z)]
  {
  }

  lemma LettersConcat(a: seq<bv8>, b: seq<bv8>)
    ensures Letters(a + b) == Letters(a) + Letters(b)
  {
  }

  /** The encoding, character by character. */
  lemma EncodedForm(data: seq<bv8>, newline: bool)
    ensures var end := if newline then [NEWLINE] else [];
            Encoded(data, newline) ==
            if data == [] then end
            else if |data| == 1 then One(data[0], end)
            else if |data| == 2 then Two(data[0], data[1], end)
            else Three(data[0], data[1], data[2], Encoded(data[3..], newline))
  {
    hide Letter, Letters, First, Second, Third, Fourth, Values;
    OthersHaveNoValue();
    var end := if newline then [NEWLINE] else [];
    if |data| <= 2 {
      ValuesShort(data);
      if data == [] {
        assert Letters([]) + end == end;
      } else if |data| == 1 {
        LettersFour(First(data[0]), Second(data[0], 0), 64, 64);
        Nested(Letter(First(data[0])), Letter(Second(data[0], 0)), PAD, PAD, end);
      } else {
        LettersFour(First(data[0]), Second(data[0], data[1]), Third(data[1], 0), 64);
        Nested(Letter(First(data[0])), Letter(Second(data[0], data[1])), Letter(Third(data[1], 0)), PAD, end);
      }
    } else {
      ValuesStep(data, 0);
      assert data[0..] == data;
      var w, x, y, z := First(data[0]), Second(data[0], data[1]), Third(data[1], data[2]), Fourth(data[2]);
      var rest := Values(data[3..]);
      LettersConcat([w, x, y, z], rest);
      LettersFour(w, x, y, z);
      Nested(Letter(w), Letter(x), Letter(y), Letter(z), Letters(rest) + end);
      assert Letters([w, x, y, z]) + Letters(rest) + end == Letters([w, x, y, z]) + (Letters(rest) + end);
    }
  }

  function One(a: bv8, end: seq<bv8>): seq<bv8> {
    [Letter(First(a))] + ([Letter(Second(a, 0))] + ([PAD, PAD] + end))
  }

  function Two(a: bv8, b: bv8, end: seq<bv8>): seq<bv8> {
    [Letter(First(a))] + ([Letter(Second(a, b))] + ([Letter(Third(b, 0))] + ([PAD] + end)))
  }

  function Three(a: bv8, b: bv8, c: bv8, rest: seq<bv8>): seq<bv8> {
    [Letter(First(a))] + ([Letter(Second(a, b))] + ([Letter(Third(b, c))] + ([Letter(Fourth(c))] + rest)))
  }

  lemma DecodeEnd(end: seq<bv8>, shift: bv32, hadpad: bool)
    requires end == [] || end == [NEWLINE]
    ensures Decoded(end, shift, 0, hadpad) == Some([])
  {
    OthersHaveNoValue();
    if end != [] {
      assert end[1..] == [];
    }
  }

  lemma DecodeOne(a: bv8, end: seq<bv8>, shift: bv32, hadpad: bool)
    ensures Decoded(One(a, end), shift, 0, hadpad) == Some([a])
  {
    hide Letter, Sextet, Decoded, Shifted, Top, First, Second, Third, Fourth;
    GroupBits(a, 0, 0);
    GroupBack(shift, a, 0, 0);
    OthersHaveNoValue();
    var t := [PAD, PAD] + end;
    var s := Shifted(Shifted(shift, First(a)), Second(a, 0));
    DecodeLetter(First(a), [Letter(Second(a, 0))] + t, shift, 0, hadpad);
    DecodeLetter(Second(a, 0), t, Shifted(shift, First(a)), 6, false);
    DecodedStep(t, s, 4, false);
    assert t[1..] == [PAD] + end;
    DecodedStep([PAD] + end, s, 4, true);
    assert [a] + [] == [a];
  }

  lemma DecodeTwo(a: bv8, b: bv8, end: seq<bv8>, shift: bv32, hadpad: bool)
    ensures Decoded(Two(a, b, end), shift, 0, hadpad) == Some([a, b])
  {
    hide Letter, Sextet, Decoded, Shifted, Top, First, Second, Third, Fourth;
    GroupBits(a, b, 0);
    GroupBack(shift, a, b, 0);
    var u := [PAD] + end;
    var t := [Letter(Third(b, 0))] + u;
    var s := Shifted(shift, First(a));
    var s' := Shifted(s, Second(a, b));
    DecodeLetter(First(a), [Letter(Second(a, b))] + t, shift, 0, hadpad);
    DecodeLetter(Second(a, b), t, s, 6, false);
    DecodeLetter(Third(b, 0), u, s', 4, false);
    DecodedStep(u, Shifted(s', Third(b, 0)), 2, false);
    assert [a] + ([b] + []) == [a, b];
  }

  lemma DecodeThree(a: bv8, b: bv8, c: bv8, rest: seq<bv8>, shift: bv32, hadpad: bool) returns (last: bv32)
    ensures Decoded(Three(a, b, c, rest), shift, 0, hadpad)
         == Push(a, Push(b, Push(c, Decoded(rest, last, 0, false))))
  {
    hide Letter, Sextet, Decoded, Shifted, Top, First, Second, Third, Fourth;
    GroupBits(a, b, c);
    GroupBack(shift, a, b, c);
    var v := [Letter(Fourth(c))] + rest;
    var u := [Letter(Third(b, c))] + v;
    var s := Shifted(shift, First(a));
    var s' := Shifted(s, Second(a, b));
    var s'' := Shifted(s', Third(b, c));
    last := Shifted(s'', Fourth(c));
    DecodeLetter(First(a), [Letter(Second(a, b))] + u, shift, 0, hadpad);
    DecodeLetter(Second(a, b), u, s, 6, false);
    DecodeLetter(Third(b, c), v, s', 4, false);
    DecodeLetter(Fourth(c), rest, s'', 2, false);
  }

  /** Decoding what was encoded gives the bytes back, with and without the newline, and never the padding error. */
  lemma RoundTrip(data: seq<bv8>, newline: bool)
    ensures Decoded(Encoded(data, newline), 0, 0, false) == Some(data)
  {
    RoundTripFrom(data, newline, 0, false);
  }

  // ----- what else the decoder accepts

  /** A string of letters decodes exactly if its bits fill whole bytes: a truncated group is the padding error. */
  lemma {:induction false} Truncated(data: seq<bv8>, shift: bv32, nbits: nat, hadpad: bool)
    requires nbits < 8 && nbits % 2 == 0 && forall i :: 0 <= i < |data| ==> Sextet(data[i]).Some?
    ensures var r := Decoded(data, shift, nbits, hadpad);
            && (r.Some? <==> (nbits + 6 * |data|) % 8 == 0)
            && (r.Some? ==> 8 * |r.value| == nbits + 6 * |data|)
  {
    hide Sextet, Shifted, Top, Decoded;
    if data == [] {
      DecodedEnd(shift, nbits, hadpad);
    } else {
      OthersHaveNoValue();
      DecodedStep(data, shift, nbits, hadpad);
      var s, bits := Shifted(shift, Sextet(data[0]).value), nbits + 6 * |data|;
      if nbits < 2 {
        Truncated(data[1..], s, nbits + 6, false);
      } else {
        Truncated(data[1..], s, nbits - 2, false);
        assert bits % 8 == (bits - 8) % 8;
      }
    }
  }

  /** A character that is neither a letter nor a pad is skipped wherever it stands, also inside a group. */
  lemma {:induction false} Skipped(front: seq<bv8>, ch: bv8, back: seq<bv8>, shift: bv32, nbits: nat, hadpad: bool)
    requires nbits < 8 && Sextet(ch).None? && ch != PAD
    ensures Decoded(front + [ch] + back, shift, nbits, hadpad) == Decoded(front + back, shift, nbits, hadpad)
  {
    hide Sextet, Shifted, Top, Decoded;
    var a, b := front + [ch] + back, front + back;
    DecodedStep(a, shift, nbits, hadpad);
    if front == [] {
      assert a[0] == ch && a[1..] == back && b == back;
    } else {
      DecodedStep(b, shift, nbits, hadpad);
      var c, rest := front[0], front[1..];
      assert a[0] == b[0] == c && a[1..] == rest + [ch] + back && b[1..] == rest + back;
      if Sextet(c).None? {
        Skipped(rest, ch, back, shift, nbits, hadpad || c == PAD);
      } else {
        Skipped(rest, ch, back, Shifted(shift, Sextet(c).value), if nbits < 2 then nbits + 6 else nbits - 2, false);
      }
    }
  }

  /** Line breaks inside the encoded text do not matter. */
  lemma BrokenLines(data: seq<bv8>, at: nat)
    requires at <= |Encoded(data, false)|
    ensures var e := Encoded(data, false); Decoded(e[..at] + [NEWLINE] + e[at..], 0, 0, false) == Some(data)
  {
    hide Sextet, Decoded, Encoded;
    var e := Encoded(data, false);
    OthersHaveNoValue();
    Skipped(e[..at], NEWLINE, e[at..], 0, 0, false);
    assert e[..at] + e[at..] == e;
    RoundTrip(data, false);
  }
}
