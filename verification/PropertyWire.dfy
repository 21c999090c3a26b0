/** The three message formats the property socket accepts, as `handleClient` in property_service.cpp
    tells them apart and decodes them, and their encoders. */
module PropertyWire {
  import opened Bytes
  import opened Text
  import opened PropertyFile

  const PROP_MSG_SETPROP: nat := 1
  const PROP_MSG_SETPROP2: nat := 0x0002_0001
  const LEGACY_SIZE: nat := 128
  const NAME_FIELD: nat := 32
  const VALUE_FIELD: nat := 92
  const RECEIVE_LIMIT: nat := 1023

  /** A received byte as the char the text parser sees. */
  type octet = c: char | c as int < 256

  datatype Request =
    | Set(key: string, value: string)
    | Get(key: string)
    | Ignored       // acknowledged, nothing set
    | Dropped       // empty read
    | OutOfBounds   // a 32-bit length check wraps and the source reads past its buffer

  function Octets(s: seq<octet>): seq<byte> {
    seq(|s|, i requires 0 <= i < |s| => s[i] as int)
  }

  function Word(s: seq<octet>, at: nat): (r: nat)
    requires at + 4 <= |s|
    ensures r < TWO_32
  {
    LE32(Octets(s), at)
  }

  function PutWord(n: nat): (s: seq<octet>)
    requires n < TWO_32
    ensures |s| == 4
  {
    var b := Put32(n);
    [b[0] as char, b[1] as char, b[2] as char, b[3] as char]
  }

  // ---------------------------------------------------------------------------
  // Decoding
  // ---------------------------------------------------------------------------

  predicate IsLegacy(buf: seq<octet>) {
    |buf| >= LEGACY_SIZE && Word(buf, 0) == PROP_MSG_SETPROP
  }

  predicate IsSetprop2(buf: seq<octet>) {
    !IsLegacy(buf) && |buf| > 8 && Word(buf, 0) == PROP_MSG_SETPROP2
  }

  function DecodeLegacy(buf: seq<octet>): Request
    requires |buf| >= LEGACY_SIZE
  {
    var key := CString(buf[4..4 + NAME_FIELD]);
    var value := CString(buf[4 + NAME_FIELD..LEGACY_SIZE]);
    if key != "" then Set(key, value) else Ignored
  }

  /** None when the lengths do not fit and the message falls through to the text formats. */
  function DecodeSetprop2(buf: seq<octet>): Option<Request>
    requires |buf| > 8
  {
    var nameLen := Word(buf, 4);
    if (8 + nameLen + 4) % TWO_32 > |buf| then None
    else if 8 + nameLen + 4 > |buf| then Some(OutOfBounds)
    else
      var valLen := Word(buf, 8 + nameLen);
      if (8 + nameLen + 4 + valLen) % TWO_32 > |buf| then None
      else if 8 + nameLen + 4 + valLen > |buf| then Some(OutOfBounds)
      else Some(Set(buf[8..8 + nameLen], buf[12 + nameLen..12 + nameLen + valLen]))
  }

  /** The text formats, once the blanks around the message are gone. */
  function DecodeTrimmed(trimmed: string): Request {
    if "setprop " <= trimmed then
      var rest := Trim(trimmed[8..]);
      var sp := Find(rest, ' ');
      if sp < |rest| then Set(Trim(rest[..sp]), Trim(rest[sp + 1..])) else Ignored
    else if "getprop " <= trimmed then Get(Trim(trimmed[8..]))
    else
      var eq := Find(trimmed, '=');
      if eq < |trimmed| && Trim(trimmed[..eq]) != "" then Set(Trim(trimmed[..eq]), Trim(trimmed[eq + 1..]))
      else Ignored
  }

  function DecodeText(text: string): Request {
    DecodeTrimmed(Trim(text))
  }

  function Decode(buf: seq<octet>): Request {
    if buf == [] then Dropped
    else if IsLegacy(buf) then DecodeLegacy(buf)
    else if IsSetprop2(buf) && DecodeSetprop2(buf).Some? then DecodeSetprop2(buf).value
    else DecodeText(buf)
  }

  /** One read takes at most 1023 bytes. */
  function Received(message: seq<octet>): seq<octet> {
    if |message| <= RECEIVE_LIMIT then message else message[..RECEIVE_LIMIT]
  }

  // ---------------------------------------------------------------------------
  // Encoding
  // ---------------------------------------------------------------------------

  function Pad(s: seq<octet>, n: nat): (r: seq<octet>)
    requires |s| <= n
    ensures |r| == n
  {
    s + seq(n - |s|, _ => NUL)
  }

  function EncodeLegacy(k: seq<octet>, v: seq<octet>): (r: seq<octet>)
    requires |k| <= NAME_FIELD && |v| <= VALUE_FIELD
    ensures |r| == LEGACY_SIZE
  {
    PutWord(PROP_MSG_SETPROP) + Pad(k, NAME_FIELD) + Pad(v, VALUE_FIELD)
  }

  function EncodeSetprop2(k: seq<octet>, v: seq<octet>): seq<octet>
    requires |k| < TWO_32 && |v| < TWO_32
  {
    PutWord(PROP_MSG_SETPROP2) + PutWord(|k|) + k + PutWord(|v|) + v
  }

  /** The first bytes of the two binary formats, and the length of the first. */
  lemma CommandBytes(k: seq<octet>, v: seq<octet>)
    requires |k| <= 32 && |v| <= 92
    ensures |EncodeLegacy(k, v)| == 128 && EncodeLegacy(k, v)[..4] == [1 as char, 0 as char, 0 as char, 0 as char]
    ensures EncodeLegacy(k, v)[4..4 + |k|] == k && EncodeLegacy(k, v)[36..36 + |v|] == v
    ensures EncodeSetprop2(k, v)[..4] == [1 as char, 0 as char, 2 as char, 0 as char]
  {
    assert Put32(PROP_MSG_SETPROP) == [1, 0, 0, 0] && Put32(PROP_MSG_SETPROP2) == [1, 0, 2, 0];
    hide Put32;
  }

  /** Text a person can type on one line: no control characters. */
  predicate Typed(s: string) {
    forall i :: 0 <= i < |s| ==> ' ' <= s[i] <= '~'
  }

  predicate Token(s: string) {
    s != "" && Trimmed(s) && Typed(s)
  }

  lemma {:induction false} PadString(s: seq<octet>, n: nat)
    requires |s| <= n && Free(s, NUL)
    ensures CString(Pad(s, n)) == s
  {
    FindUnique(Pad(s, n), NUL, |s|);
    assert Pad(s, n)[..|s|] == s;
  }

  lemma WordAt(s: seq<octet>, at: nat, n: nat)
    requires n < TWO_32 && at + 4 <= |s| && s[at..at + 4] == PutWord(n)
    ensures Word(s, at) == n
  {
    hide Put32;
    var w := s[at..at + 4];
    assert w[0] == s[at] && w[1] == s[at + 1] && w[2] == s[at + 2] && w[3] == s[at + 3];
    assert Octets(s)[at..at + 4] == Put32(n);
    Field32(Octets(s), at, n);
  }

  /** A legacy message, and anything sent behind it, sets exactly the property it encodes. */
  lemma LegacyRoundTrip(k: seq<octet>, v: seq<octet>, more: seq<octet>)
    requires 0 < |k| <= 32 && |v| <= 92 && Free(k, NUL) && Free(v, NUL)
    ensures IsLegacy(EncodeLegacy(k, v) + more)
    ensures Decode(EncodeLegacy(k, v) + more) == Set(k, v)
  {
    var e := EncodeLegacy(k, v);
    var buf := e + more;
    assert buf[0..4] == PutWord(PROP_MSG_SETPROP);
    WordAt(buf, 0, PROP_MSG_SETPROP);
    assert buf[4..4 + NAME_FIELD] == Pad(k, NAME_FIELD);
    assert buf[4 + NAME_FIELD..LEGACY_SIZE] == Pad(v, VALUE_FIELD);
    PadString(k, NAME_FIELD);
    PadString(v, VALUE_FIELD);
  }

  /** A length-prefixed message sets exactly the property it encodes, whatever bytes it holds. */
  lemma Setprop2RoundTrip(k: seq<octet>, v: seq<octet>)
    requires |k| + |v| + 12 <= 1023
    ensures IsSetprop2(EncodeSetprop2(k, v))
    ensures Decode(Received(EncodeSetprop2(k, v))) == Set(k, v)
  {
    Setprop2Slices(PutWord(PROP_MSG_SETPROP2), PutWord(|k|), k, PutWord(|v|), v);
    Setprop2Fields(EncodeSetprop2(k, v), k, v);
  }

  lemma Setprop2Slices(c: seq<octet>, n: seq<octet>, k: seq<octet>, l: seq<octet>, v: seq<octet>)
    requires |c| == |n| == |l| == 4
    ensures var buf := c + n + k + l + v;
            && |buf| == |k| + |v| + 12 && buf[0..4] == c && buf[4..8] == n && buf[8..8 + |k|] == k
            && buf[8 + |k|..12 + |k|] == l && buf[12 + |k|..12 + |k| + |v|] == v
  {
    var buf := c + n + k + l + v;
    assert buf == [] + c + (n + k + l + v);
    MiddleSlice([], c, n + k + l + v);
    assert buf == c + n + (k + l + v);
    MiddleSlice(c, n, k + l + v);
    Assoc(c + n + k, l, v);
    MiddleSlice(c + n, k, l + v);
    MiddleSlice(c + n + k, l, v);
    assert buf == buf + [];
    MiddleSlice(c + n + k + l, v, []);
  }

  lemma Setprop2Fields(buf: seq<octet>, k: seq<octet>, v: seq<octet>)
    requires |buf| == |k| + |v| + 12 <= RECEIVE_LIMIT
    requires buf[0..4] == PutWord(PROP_MSG_SETPROP2) && buf[4..8] == PutWord(|k|) && buf[8..8 + |k|] == k
    requires buf[8 + |k|..12 + |k|] == PutWord(|v|) && buf[12 + |k|..12 + |k| + |v|] == v
    ensures IsSetprop2(buf) && Decode(Received(buf)) == Set(k, v)
  {
    hide Word, PutWord, DecodeText, DecodeLegacy;
    WordAt(buf, 0, PROP_MSG_SETPROP2);
    WordAt(buf, 4, |k|);
    WordAt(buf, 8 + |k|, |v|);
    assert DecodeSetprop2(buf) == Some(Set(buf[8..8 + |k|], buf[12 + |k|..12 + |k| + |v|]));
  }

  /** One of the two 32-bit length sums of a length-prefixed message passes 2^32 and comes out small. */
  predicate LengthsWrap(buf: seq<octet>) {
    IsSetprop2(buf) &&
    var n := Word(buf, 4);
    if 12 + n <= |buf| then TWO_32 <= 12 + n + Word(buf, 8 + n) <= TWO_32 + |buf|
    else TWO_32 <= 12 + n <= TWO_32 + |buf|
  }

  /** A message is read past its buffer exactly when one of its length sums wraps: every other message
      of the length-prefixed format is decoded or passed on to the text formats. */
  lemma OutOfBoundsExactly(buf: seq<octet>)
    requires |buf| <= RECEIVE_LIMIT
    ensures Decode(buf) == OutOfBounds <==> LengthsWrap(buf)
  {
    hide Word, DecodeText, DecodeLegacy;
    LegacyInBounds(buf);
    TextInBounds(buf);
  }

  lemma LegacyInBounds(buf: seq<octet>)
    ensures |buf| >= LEGACY_SIZE ==> DecodeLegacy(buf) != OutOfBounds
  {
  }

  lemma TextInBounds(text: string)
    ensures DecodeText(text) != OutOfBounds
  {
    hide Trim;
  }

  /** Nine bytes are enough: a name length from 2^32 - 12 on passes the first check exactly when what its
      sum wraps to is not longer than the message. */
  lemma WrappingName(n: nat, more: seq<octet>)
    requires TWO_32 - 12 <= n < TWO_32 && |more| <= 1015
    ensures Decode(PutWord(PROP_MSG_SETPROP2) + PutWord(n) + more) == OutOfBounds
       <==> 0 < |more| && n + 12 - TWO_32 <= 8 + |more|
  {
    var buf := PutWord(PROP_MSG_SETPROP2) + PutWord(n) + more;
    assert buf[0..4] == PutWord(PROP_MSG_SETPROP2) && buf[4..8] == PutWord(n);
    WordAt(buf, 0, PROP_MSG_SETPROP2);
    WordAt(buf, 4, n);
    hide Word, PutWord, Decode;
    OutOfBoundsExactly(buf);
  }

  /** A binary command that is too short, or whose name does not fit, is read as text. */
  lemma FallsThrough(buf: seq<octet>)
    requires |buf| >= 4
    ensures Word(buf, 0) == 1 && |buf| < 128 ==> Decode(buf) == DecodeText(buf)
    ensures Word(buf, 0) == 0x0002_0001 && (|buf| <= 8 || |buf| < 12 + Word(buf, 4) < TWO_32) ==>
              Decode(buf) == DecodeText(buf)
    ensures Word(buf, 0) != 1 && Word(buf, 0) != 0x0002_0001 ==> Decode(buf) == DecodeText(buf)
  {
    hide Word, DecodeText, DecodeLegacy;
  }

  /** Nothing is set for an empty name, except by the length-prefixed format. */
  lemma EmptyKeys(v: seq<octet>, pad: seq<octet>, more: seq<octet>)
    requires |v| <= 92 && AllBlank(pad)
    ensures Decode(EncodeLegacy([], v) + more) == Ignored
    ensures DecodeText(pad + ['='] + more) == Ignored
  {
    EmptyLegacy(v, more);
    TrimStart(pad, ['='] + more);
    assert pad + ['='] + more == pad + (['='] + more);
    StartsWithEquals(Trim(pad + ['='] + more));
  }

  lemma StartsWithEquals(s: string)
    requires s != "" && s[0] == '='
    ensures DecodeTrimmed(s) == Ignored
  {
    FindUnique(s, '=', 0);
    TrimmedIsTrim("");
    assert s[..0] == "";
    assert "setprop "[0] == 's' && "getprop "[0] == 'g';
  }

  lemma EmptyLegacy(v: seq<octet>, more: seq<octet>)
    requires |v| <= 92
    ensures Decode(EncodeLegacy([], v) + more) == Ignored
  {
    var e := EncodeLegacy([], v);
    var buf := e + more;
    assert buf[0..4] == PutWord(PROP_MSG_SETPROP);
    WordAt(buf, 0, PROP_MSG_SETPROP);
    assert buf[4..4 + NAME_FIELD] == Pad([], NAME_FIELD);
    PadString([], NAME_FIELD);
  }

  /** Typed text is never mistaken for a binary message: its first byte is no command's. */
  lemma TextIsNotBinary(s: seq<octet>)
    requires s != [] && ' ' <= s[0]
    ensures !IsLegacy(s) && !IsSetprop2(s) && Decode(s) == DecodeText(s)
  {
    if |s| >= 4 {
      LowByte(s);
    }
  }

  lemma LowByte(s: seq<octet>)
    requires |s| >= 4
    ensures Word(s, 0) % 256 == s[0] as int
  {
    var b := Octets(s);
    var high := b[1] + 0x100 * LE16(b, 2);
    assert Word(s, 0) == b[0] + 0x100 * high;
  }

  lemma TrimmedIsTrim(s: string)
    requires Trimmed(s)
    ensures Trim(s) == s
  {
    TrimPadded("", s, "");
    assert "" + s + "" == s;
  }

  lemma TrimAround(s: string, end: string)
    requires Trimmed(s) && AllBlank(end)
    ensures Trim(s + end) == s
  {
    TrimPadded("", s, end);
    assert "" + s + end == s + end;
  }

  lemma TrimShortens(s: string)
    ensures |Trim(s)| <= |s|
  {
  }

  /** Decoding adds nothing: key, value and the sign between them come out of the text. */
  lemma DecodedFits(text: string)
    ensures DecodeText(text).Set? ==> |DecodeText(text).key| + |DecodeText(text).value| + 1 <= |text|
    ensures DecodeText(text).Get? ==> |DecodeText(text).key| + 8 <= |text|
    ensures DecodeText(text).Set? && "setprop " <= Trim(text) ==>
              |DecodeText(text).key| + |DecodeText(text).value| + 9 <= |text|
  {
    var trimmed := Trim(text);
    TrimShortens(text);
    hide Trim;
    if "setprop " <= trimmed {
      var rest := Trim(trimmed[8..]);
      TrimShortens(trimmed[8..]);
      CutShortens(rest, ' ');
    } else if "getprop " <= trimmed {
      TrimShortens(trimmed[8..]);
    } else {
      CutShortens(trimmed, '=');
    }
  }

  lemma CutShortens(s: string, c: char)
    ensures var k := Find(s, c); k < |s| ==> |Trim(s[..k])| + |Trim(s[k + 1..])| + 1 <= |s|
  {
    hide Trim;
    var k := Find(s, c);
    if k < |s| {
      TrimShortens(s[..k]);
      TrimShortens(s[k + 1..]);
    }
  }

  /** One read of a text with blanks behind it: the text and some of the blanks, or a beginning of it. */
  lemma ReceivedText(s: seq<octet>, end: seq<octet>) returns (rest: seq<octet>)
    requires AllBlank(end)
    ensures AllBlank(rest)
    ensures |s| <= RECEIVE_LIMIT ==> Received(s + end) == s + rest
    ensures |s| > RECEIVE_LIMIT ==> Received(s + end) == s[..RECEIVE_LIMIT]
  {
    if |s| > RECEIVE_LIMIT {
      rest := [];
      CutAppend(s, end, RECEIVE_LIMIT);
    } else if |s| + |end| <= RECEIVE_LIMIT {
      rest := end;
    } else {
      rest := end[..RECEIVE_LIMIT - |s|];
      assert (s + end)[..RECEIVE_LIMIT] == s + rest;
    }
  }

  /** "key=value", with or without a line end, sets key to value. */
  lemma AssignmentRoundTrip(k: seq<octet>, v: seq<octet>, end: seq<octet>)
    requires Token(k) && Free(k, '=') && Typed(v) && Trimmed(v) && AllBlank(end)
    requires !("setprop " <= k + ['='] + v) && !("getprop " <= k + ['='] + v)
    ensures Decode(k + ['='] + v + end) == Set(k, v)
    ensures Decode(Received(k + ['='] + v + end)) == Set(k, v) <==> |k| + |v| + 1 <= 1023
  {
    var s := k + ['='] + v;
    AssignmentDecoded(k, v, end);
    var rest := ReceivedText(s, end);
    hide Decode, DecodeText, Received;
    if |s| <= RECEIVE_LIMIT {
      AssignmentDecoded(k, v, rest);
    } else {
      TextIsNotBinary(s[..RECEIVE_LIMIT]);
      DecodedFits(s[..RECEIVE_LIMIT]);
    }
  }

  lemma AssignmentDecoded(k: seq<octet>, v: seq<octet>, end: seq<octet>)
    requires Token(k) && Free(k, '=') && Typed(v) && Trimmed(v) && AllBlank(end)
    requires !("setprop " <= k + ['='] + v) && !("getprop " <= k + ['='] + v)
    ensures Decode(k + ['='] + v + end) == Set(k, v)
  {
    var s := k + ['='] + v;
    assert Trimmed(s);
    TextIsNotBinary(s + end);
    TrimAround(s, end);
    hide Decode, DecodeTrimmed, Trim;
    SplitsAtEquals(k, v);
  }

  lemma SplitsAtEquals(k: string, v: string)
    requires Token(k) && Free(k, '=') && Trimmed(v)
    requires !("setprop " <= k + ['='] + v) && !("getprop " <= k + ['='] + v)
    ensures DecodeTrimmed(k + ['='] + v) == Set(k, v)
  {
    TrimmedIsTrim(k);
    TrimmedIsTrim(v);
    CutsAt(k, '=', v);
    hide Trim, Find, Trimmed;
  }

  function SetpropText(k: seq<octet>, v: seq<octet>): seq<octet> {
    "setprop " + (k + [' '] + v)
  }

  /** "setprop key value", with or without a line end, sets key to value. */
  lemma SetpropRoundTrip(k: seq<octet>, v: seq<octet>, end: seq<octet>)
    requires Token(k) && Free(k, ' ') && Token(v) && AllBlank(end)
    ensures Decode("setprop " + (k + [' '] + v) + end) == Set(k, v)
    ensures Decode(Received("setprop " + (k + [' '] + v) + end)) == Set(k, v) <==> |k| + |v| + 9 <= 1023
  {
    hide Decode, Received, Token, Free, AllBlank;
    var s := SetpropText(k, v);
    SetpropDecoded(k, v, end);
    var rest := ReceivedText(s, end);
    if |s| <= RECEIVE_LIMIT {
      SetpropDecoded(k, v, rest);
    } else {
      SetpropCut(k, v, s[..RECEIVE_LIMIT]);
    }
  }

  /** A command cut off by the read sets something else. */
  lemma SetpropCut(k: seq<octet>, v: seq<octet>, cut: seq<octet>)
    requires Token(k) && 8 < |cut| < |k| + |v| + 9 && cut == ("setprop " + (k + [' '] + v))[..|cut|]
    ensures Decode(cut) != Set(k, v)
  {
    assert cut[..8] == "setprop " && cut[8] == k[0];
    TextIsNotBinary(cut);
    DecodedFits(cut);
    TrimKeeps(cut, 8);
    hide Decode, DecodeText, Trim;
    assert Trim(cut)[..8] == "setprop ";
  }

  lemma SetpropDecoded(k: seq<octet>, v: seq<octet>, end: seq<octet>)
    requires Token(k) && Free(k, ' ') && Token(v) && AllBlank(end)
    ensures Decode("setprop " + (k + [' '] + v) + end) == Set(k, v)
  {
    var rest := k + [' '] + v;
    var s := "setprop " + rest;
    assert Trimmed(s);
    TextIsNotBinary(s + end);
    TrimAround(s, end);
    hide Decode, DecodeTrimmed, Trim;
    SplitsAtBlank(k, v);
  }

  /** Trimming a text that starts with a letter keeps it up to any other letter. */
  lemma TrimKeeps(s: string, i: nat)
    requires 0 < i < |s| && !Blank(s[0]) && !Blank(s[i])
    ensures i < |Trim(s)| && Trim(s)[..i] == s[..i]
  {
    TrimRightKeeps(s, i);
  }

  lemma {:induction false} TrimRightKeeps(s: string, i: nat)
    requires i < |s| && !Blank(s[i])
    ensures i < |TrimRight(s)| && TrimRight(s)[..i] == s[..i]
    decreases |s|
  {
    if Blank(s[|s| - 1]) {
      TrimRightKeeps(s[..|s| - 1], i);
      assert s[..|s| - 1][..i] == s[..i];
    }
  }

  lemma SplitsAtBlank(k: string, v: string)
    requires Token(k) && Free(k, ' ') && Token(v)
    ensures DecodeTrimmed("setprop " + (k + [' '] + v)) == Set(k, v)
  {
    var rest := k + [' '] + v;
    CutAppend("setprop ", rest, 8);
    assert Trimmed(rest);
    TrimmedIsTrim(rest);
    TrimmedIsTrim(k);
    TrimmedIsTrim(v);
    CutsAt(k, ' ', v);
    hide Trim, Find, Token, Trimmed;
  }

  /** A text without the sign, the sign and another text are cut apart at the sign. */
  lemma CutsAt(k: string, c: char, v: string)
    requires Free(k, c)
    ensures var s := k + [c] + v; Find(s, c) == |k| < |s| && s[..|k|] == k && s[|k| + 1..] == v
  {
    FindFree(k, c, v);
  }

  function GetpropText(k: seq<octet>): seq<octet> {
    "getprop " + k
  }

  /** "getprop key" asks for key. */
  lemma GetpropRoundTrip(k: seq<octet>, end: seq<octet>)
    requires Token(k) && AllBlank(end)
    ensures Decode("getprop " + k + end) == Get(k)
    ensures Decode(Received("getprop " + k + end)) == Get(k) <==> |k| + 8 <= 1023
  {
    hide Decode, DecodeText, Received, Token, AllBlank;
    var s := GetpropText(k);
    assert s[0] == 'g';
    GetpropDecoded(k, end);
    var rest := ReceivedText(s, end);
    if |s| <= RECEIVE_LIMIT {
      GetpropDecoded(k, rest);
    } else {
      TextIsNotBinary(s[..RECEIVE_LIMIT]);
      DecodedFits(s[..RECEIVE_LIMIT]);
    }
  }

  lemma GetpropDecoded(k: seq<octet>, end: seq<octet>)
    requires Token(k) && AllBlank(end)
    ensures Decode("getprop " + k + end) == Get(k)
  {
    var s := "getprop " + k;
    TextIsNotBinary(s + end);
    assert Trimmed(s);
    TrimAround(s, end);
    hide Trim;
    assert s[..8] == "getprop " && s[8..] == k;
    assert !("setprop " <= s) by { assert s[0] == 'g'; }
    TrimmedIsTrim(k);
  }

  /** Blanks around a message, its key and its value count for nothing. */
  lemma BlanksAround(lead: string, pad: string, gap: string, end: string, k: string, v: string)
    requires AllBlank(lead) && AllBlank(pad) && AllBlank(gap) && AllBlank(end) && Token(k) && Token(v)
    ensures DecodeText(lead + ("getprop " + (pad + k)) + end) == Get(k)
    ensures Free(k, ' ') ==> DecodeText(lead + ("setprop " + (pad + (k + [' '] + (gap + v)))) + end) == Set(k, v)
    ensures Free(k, '=') && k[0] != 's' && k[0] != 'g' ==>
              DecodeText(lead + ((k + pad) + ['='] + (gap + v)) + end) == Set(k, v)
  {
    hide Trim, DecodeTrimmed;
    TrimPadded(lead, "getprop " + (pad + k), end);
    PaddedGetprop(pad, k);
    if Free(k, ' ') {
      TrimPadded(lead, "setprop " + (pad + (k + [' '] + (gap + v))), end);
      PaddedSetprop(pad, gap, k, v);
    }
    if Free(k, '=') && k[0] != 's' && k[0] != 'g' {
      TrimPadded(lead, (k + pad) + ['='] + (gap + v), end);
      PaddedAssignment(pad, gap, k, v);
    }
  }

  lemma TrimFront(pad: string, s: string)
    requires AllBlank(pad) && Trimmed(s)
    ensures Trim(pad + s) == s
  {
    TrimPadded(pad, s, "");
    assert pad + s + "" == pad + s;
  }

  lemma PaddedGetprop(pad: string, k: string)
    requires AllBlank(pad) && Token(k)
    ensures DecodeTrimmed("getprop " + (pad + k)) == Get(k)
  {
    var s := "getprop " + (pad + k);
    assert s[0] == 'g' && s[..8] == "getprop " && s[8..] == pad + k;
    TrimFront(pad, k);
    hide Trim;
  }

  lemma PaddedSetprop(pad: string, gap: string, k: string, v: string)
    requires AllBlank(pad) && AllBlank(gap) && Token(k) && Token(v) && Free(k, ' ')
    ensures DecodeTrimmed("setprop " + (pad + (k + [' '] + (gap + v)))) == Set(k, v)
  {
    var rest := k + [' '] + (gap + v);
    CutAppend("setprop ", pad + rest, 8);
    assert Trimmed(rest);
    TrimFront(pad, rest);
    TrimFront(gap, v);
    TrimmedIsTrim(k);
    CutsAt(k, ' ', gap + v);
    hide Trim, Find, Token, Trimmed;
  }

  lemma PaddedAssignment(pad: string, gap: string, k: string, v: string)
    requires AllBlank(pad) && AllBlank(gap) && Token(k) && Token(v) && Free(k, '=') && k[0] != 's' && k[0] != 'g'
    ensures DecodeTrimmed((k + pad) + ['='] + (gap + v)) == Set(k, v)
  {
    var s := (k + pad) + ['='] + (gap + v);
    assert s[0] == k[0] && "setprop "[0] == 's' && "getprop "[0] == 'g';
    TrimAround(k, pad);
    TrimFront(gap, v);
    assert Free(k + pad, '=');
    CutsAt(k + pad, '=', gap + v);
    hide Trim, Find, Token, Trimmed;
  }

  /** An empty value cannot be sent as "setprop key ": trimming leaves no second blank to split at. */
  lemma EmptyValueIgnored(k: seq<octet>, end: seq<octet>)
    requires Token(k) && Free(k, ' ') && AllBlank(end)
    ensures Decode("setprop " + k + ([' '] + end)) == Ignored
         == Decode(Received("setprop " + k + ([' '] + end)))
  {
    hide Decode, Received, Token, Free;
    var blanks: seq<octet> := [' '] + end;
    LoneWordDecoded(k, blanks);
    var s := LoneWordText(k);
    var rest := ReceivedText(s, blanks);
    if |s| <= RECEIVE_LIMIT {
      LoneWordDecoded(k, rest);
    } else {
      var shorter := k[..RECEIVE_LIMIT - 8];
      assert s[..RECEIVE_LIMIT] == "setprop " + shorter + [];
      StartOfToken(k, RECEIVE_LIMIT - 8);
      LoneWordDecoded(shorter, []);
    }
  }

  function LoneWordText(k: seq<octet>): seq<octet> {
    "setprop " + k
  }

  /** Without a blank in it, any beginning of a token is one. */
  lemma StartOfToken(k: string, n: nat)
    requires Token(k) && Free(k, ' ') && 0 < n <= |k|
    ensures Token(k[..n]) && Free(k[..n], ' ')
  {
  }

  lemma LoneWordDecoded(k: seq<octet>, blanks: seq<octet>)
    requires Token(k) && Free(k, ' ') && AllBlank(blanks)
    ensures Decode("setprop " + k + blanks) == Ignored
  {
    var s := "setprop " + k;
    TextIsNotBinary(s + blanks);
    assert Trimmed(s);
    TrimAround(s, blanks);
    hide DecodeTrimmed, Trim, Decode;
    LoneWord(k);
  }

  lemma LoneWord(k: string)
    requires Token(k) && Free(k, ' ')
    ensures DecodeTrimmed("setprop " + k) == Ignored
  {
    TrimmedIsTrim(k);
    hide Trim;
    CutAppend("setprop ", k, 8);
    FindUnique(k, ' ', |k|);
  }
}
