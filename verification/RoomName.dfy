/** The byte-level room name check of the room service, measured against UTF-8 (section 3 of RFC 3629). */
module RoomName {
  import opened Wrappers

  const MAX_BYTES := 40
  const DOLLAR := 0x24

  predicate AsciiNameChar(c: int) {
    0x41 <= c <= 0x5A || 0x61 <= c <= 0x7A || 0x30 <= c <= 0x39 || c == 0x20
  }

  /** (c & 0xF0) == 0xE0 is c / 16 == 0xE, and (c & 0xC0) == 0x80 is c / 64 == 2, on a byte. */
  predicate ByteOk(c: byte) {
    AsciiNameChar(c) || c / 16 == 0xE || c / 64 == 2
  }

  predicate ValidRoomName(name: seq<byte>) {
    && 1 <= |name| <= MAX_BYTES
    && forall i :: 0 <= i < |name| ==> ByteOk(name[i]) || (i == |name| - 1 && name[i] == DOLLAR)
  }

  method IsValidRoomName(name: seq<byte>) returns (ok: bool)
    ensures ok <==> ValidRoomName(name)
  {
    if name == [] {
      return false;
    }
    if |name| > MAX_BYTES {
      return false;
    }
    var len := |name|;
    for i := 0 to len
      invariant forall j :: 0 <= j < i ==> ByteOk(name[j]) || (j == len - 1 && name[j] == DOLLAR)
    {
      var c := name[i];
      if i == len - 1 && c == DOLLAR { continue; }
      if AsciiNameChar(c) { continue; }
      if c / 16 == 0xE { continue; }
      if c / 64 == 2 { continue; }
      return false;
    }
    return true;
  }

  // ---------- UTF-8 ----------

  predicate CodePoint(c: int) {
    0 <= c < 0xD800 || 0xE000 <= c <= 0x10FFFF
  }

  function Encode(c: int): seq<byte>
    requires CodePoint(c)
  {
    if c < 0x80 then [c]
    else if c < 0x800 then [0xC0 + c / 64, 0x80 + c % 64]
    else if c < 0x10000 then [0xE0 + c / 4096, 0x80 + c / 64 % 64, 0x80 + c % 64]
    else [0xF0 + c / 262144, 0x80 + c / 4096 % 64, 0x80 + c / 64 % 64, 0x80 + c % 64]
  }

  function EncodeAll(s: seq<int>): seq<byte>
    requires forall i :: 0 <= i < |s| ==> CodePoint(s[i])
  {
    if s == [] then [] else EncodeAll(s[..|s| - 1]) + Encode(s[|s| - 1])
  }

  /** What the check lets through: ASCII name characters and every character of three bytes. */
  predicate Accepted(c: int) {
    AsciiNameChar(c) || 0x800 <= c < 0x10000
  }

  lemma EncodingOk(c: int)
    requires CodePoint(c)
    ensures (forall b :: b in Encode(c) ==> ByteOk(b)) <==> Accepted(c)
    ensures Encode(c)[|Encode(c)| - 1] == DOLLAR ==> c == DOLLAR
  {
    var e := Encode(c);
    if 0x80 <= c < 0x800 {
      assert e[0] in e && 0xC0 <= e[0] < 0xE0;
    } else if c >= 0x10000 {
      assert e[0] in e && 0xF0 <= e[0] < 0xF8;
    } else if c < 0x80 {
      assert e[0] in e;
    } else {
      assert e[0] / 16 == 0xE && e[1] / 64 == 2 && e[2] / 64 == 2;
    }
  }

  lemma {:induction false} AllEncodingsOk(s: seq<int>)
    requires forall i :: 0 <= i < |s| ==> CodePoint(s[i])
    ensures (forall b :: b in EncodeAll(s) ==> ByteOk(b)) <==> forall i :: 0 <= i < |s| ==> Accepted(s[i])
  {
    if s != [] {
      var init, last := s[..|s| - 1], s[|s| - 1];
      AllEncodingsOk(init);
      EncodingOk(last);
      BytesOfBoth(EncodeAll(init), Encode(last));
      assert s == init + [last];
    }
  }

  lemma BytesOfBoth(a: seq<byte>, c: seq<byte>)
    ensures (forall b :: b in a + c ==> ByteOk(b)) <==>
              (forall b :: b in a ==> ByteOk(b)) && (forall b :: b in c ==> ByteOk(b))
  {
    assert forall b :: b in a + c <==> b in a || b in c;
  }

  /** Exactly the encodings of 1 to 40 bytes of accepted characters pass, a final '$' apart. */
  lemma ValidNamesExactly(s: seq<int>)
    requires forall i :: 0 <= i < |s| ==> CodePoint(s[i])
    ensures ValidRoomName(EncodeAll(s)) <==>
              && 1 <= |EncodeAll(s)| <= 40
              && forall i :: 0 <= i < |s| ==> Accepted(s[i]) || (i == |s| - 1 && s[i] == DOLLAR)
  {
    if s != [] {
      var init, last := s[..|s| - 1], s[|s| - 1];
      AllEncodingsOk(init);
      EncodingOk(last);
      assert s == init + [last];
      LastCharacter(EncodeAll(init), last);
    }
  }

  /** The last character passes if all its bytes do, or if it is the '$', which is one byte. */
  lemma LastCharacter(head: seq<byte>, last: int)
    requires CodePoint(last)
    ensures ValidRoomName(head + Encode(last)) <==>
              && 1 <= |head + Encode(last)| <= MAX_BYTES
              && (forall b :: b in head ==> ByteOk(b))
              && (Accepted(last) || last == DOLLAR)
  {
    var tail := Encode(last);
    var e := head + tail;
    EncodingOk(last);
    assert forall i :: 0 <= i < |head| ==> e[i] == head[i];
    assert forall i :: 0 <= i < |tail| ==> e[|head| + i] == tail[i];
    if ValidRoomName(e) {
      forall b | b in head ensures ByteOk(b) {
        var i :| 0 <= i < |head| && head[i] == b;
        assert e[i] == b;
      }
      if last != DOLLAR {
        forall i | 0 <= i < |tail| ensures ByteOk(tail[i]) {
          assert e[|head| + i] == tail[i];
        }
      }
    }
  }

  predicate Hangul(c: int) { 0xAC00 <= c <= 0xD7A3 }

  /** Over the advertised alphabet (English letters, digits, space, Hangul syllables) only the length counts. */
  lemma HangulNamesPassByLength(s: seq<int>)
    requires forall i :: 0 <= i < |s| ==>
               CodePoint(s[i]) && (AsciiNameChar(s[i]) || Hangul(s[i]) || (i == |s| - 1 && s[i] == DOLLAR))
    ensures ValidRoomName(EncodeAll(s)) <==> 1 <= |EncodeAll(s)| <= 40
  {
    ValidNamesExactly(s);
  }

  /** The check is wider than its message: a Hiragana letter passes too. */
  lemma HiraganaPasses()
    ensures CodePoint(0x3042) && !AsciiNameChar(0x3042) && !Hangul(0x3042) && ValidRoomName(EncodeAll([0x3042]))
  {
    ValidNamesExactly([0x3042]);
    assert EncodeAll([0x3042]) == EncodeAll([]) + Encode(0x3042);
  }
}
