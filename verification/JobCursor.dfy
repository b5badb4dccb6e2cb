/**
 The signed cursor of the job history: a JSON document that names the last job shown and the first
 job of the first page, base64url-encoded, with a signature over the document.

 The signature function, the JSON parser and the digest of an owner are parameters. Of the parser
 it is assumed only that it reads back the documents that the encoder writes.
 */
module JobCursor {
  import opened Common
  import opened Base64Url
  import opened Keyset

  const MAX_CURSOR_LENGTH := 512
  const MAX_TIME := 1_000_000_000_000_000_000
  const SIGNATURE_SIZE := 32

  datatype Document = Document(boundary: TimeKey, cutoff: TimeKey, filter: string, owner: string)

  datatype Keys = Keys(
    sign: seq<byte> -> seq<byte>, parse: seq<byte> -> Option<Document>, ownerDigest: string -> string)

  predicate IsHex(text: string, length: nat) {
    |text| == length && forall i | 0 <= i < |text| :: '0' <= text[i] <= '9' || 'a' <= text[i] <= 'f'
  }

  /******* The text of a document *******/

  function Decimal(n: nat): (text: string)
    ensures |text| >= 1
    ensures IsAscii(text)
  {
    if n < 10 then ['0' + n as char] else Decimal(n / 10) + ['0' + (n % 10) as char]
  }

  predicate IsAscii(text: string) {
    forall i | 0 <= i < |text| :: text[i] < 128 as char
  }

  function Ascii(text: string): (bytes: seq<byte>)
    requires IsAscii(text)
    ensures |bytes| == |text|
  {
    if text == [] then [] else [text[0] as int] + Ascii(text[1..])
  }

  predicate IsWritable(document: Document) {
    && IsHex(document.boundary.id, 32) && IsHex(document.cutoff.id, 32)
    && IsHex(document.filter, 64) && IsHex(document.owner, 64)
    && 0 <= document.boundary.time <= MAX_TIME && 0 <= document.cutoff.time <= MAX_TIME
  }

  const BOUNDARY_ID := "{\"bi\":\""
  const BOUNDARY_TIME := "\",\"bt\":"
  const CUTOFF_ID := "\"ci\":\""
  const CUTOFF_TIME := "\",\"ct\":"
  const FILTER := "\"f\":\""
  const OWNER := "\",\"o\":\""
  const VERSION := "\",\"v\":2}"

  /** The two digests and what follows them. */
  function Digests(filter: string, owner: string): string {
    FILTER + filter + (OWNER + owner + VERSION)
  }

  /** A position, which ends with a number, and what follows it. */
  function Numbered(mark: string, time: nat, rest: string): string {
    mark + (Decimal(time) + "," + rest)
  }

  function FromCutoff(document: Document): string
    requires IsWritable(document)
  {
    CUTOFF_ID + document.cutoff.id + Numbered(CUTOFF_TIME, document.cutoff.time, Digests(document.filter, document.owner))
  }

  /** Keys in order, no spaces, contract version 2. */
  function Text(document: Document): (text: string)
    requires IsWritable(document)
  {
    BOUNDARY_ID + document.boundary.id + Numbered(BOUNDARY_TIME, document.boundary.time, FromCutoff(document))
  }

  function PowerOfTen(k: nat): (power: nat)
    ensures power >= 1
  {
    if k == 0 then 1 else 10 * PowerOfTen(k - 1)
  }

  lemma {:induction false} DecimalFits(n: nat, k: nat)
    requires n < PowerOfTen(k)
    ensures |Decimal(n)| <= if k == 0 then 1 else k
    decreases k
  {
    if n >= 10 { DecimalFits(n / 10, k - 1); }
  }

  lemma TimeFits(n: nat)
    requires n <= MAX_TIME
    ensures |Decimal(n)| <= 19
  {
    assert PowerOfTen(4) == 10_000;
    assert PowerOfTen(8) == 100_000_000;
    assert PowerOfTen(12) == 1_000_000_000_000;
    assert PowerOfTen(16) == 10_000_000_000_000_000;
    assert PowerOfTen(19) == 10 * MAX_TIME;
    DecimalFits(n, 19);
  }

  lemma NumberedIsAscii(mark: string, time: nat, rest: string)
    requires IsAscii(mark) && IsAscii(rest)
    ensures IsAscii(Numbered(mark, time, rest))
    ensures |Numbered(mark, time, rest)| == |mark| + |Decimal(time)| + 1 + |rest|
  {
  }

  lemma CutoffFits(document: Document)
    requires IsWritable(document)
    ensures IsAscii(FromCutoff(document)) && |FromCutoff(document)| <= 213
  {
    TimeFits(document.cutoff.time);
    assert IsAscii(document.filter) && IsAscii(document.owner) && IsAscii(document.cutoff.id);
    var digests := Digests(document.filter, document.owner);
    assert IsAscii(digests) && |digests| == 148;
    NumberedIsAscii(CUTOFF_TIME, document.cutoff.time, digests);
    assert IsAscii(CUTOFF_ID + document.cutoff.id);
  }

  lemma TextFits(document: Document)
    requires IsWritable(document)
    ensures IsAscii(Text(document)) && |Text(document)| <= 279
  {
    TimeFits(document.boundary.time);
    CutoffFits(document);
    NumberedIsAscii(BOUNDARY_TIME, document.boundary.time, FromCutoff(document));
    assert IsAscii(document.boundary.id);
    assert IsAscii(BOUNDARY_ID + document.boundary.id);
  }

  /******* The text determines the document *******/

  /** The text up to the first `mark`. */
  function Before(text: string, mark: char): (part: string)
    ensures |part| <= |text| && part == text[..|part|]
    ensures |part| < |text| ==> text[|part|] == mark
  {
    if text == [] || text[0] == mark then [] else [text[0]] + Before(text[1..], mark)
  }

  predicate Without(text: string, mark: char) {
    forall i | 0 <= i < |text| :: text[i] != mark
  }

  lemma {:induction false} BeforeStops(front: string, mark: char, back: string)
    requires Without(front, mark)
    ensures Before(front + [mark] + back, mark) == front
    decreases |front|
  {
    var text := front + [mark] + back;
    if front != [] {
      assert text[1..] == front[1..] + [mark] + back;
      BeforeStops(front[1..], mark, back);
    }
  }

  lemma {:induction false} DecimalIsDigits(n: nat)
    ensures forall i | 0 <= i < |Decimal(n)| :: '0' <= Decimal(n)[i] <= '9'
  {
    if n >= 10 { DecimalIsDigits(n / 10); }
  }

  lemma {:induction false} DecimalDetermines(m: nat, n: nat)
    requires Decimal(m) == Decimal(n)
    ensures m == n
  {
    var a, b := Decimal(m), Decimal(n);
    assert a[|a| - 1] == '0' + (m % 10) as char && b[|b| - 1] == '0' + (n % 10) as char;
    if m >= 10 && n >= 10 {
      assert a[..|a| - 1] == Decimal(m / 10) && b[..|b| - 1] == Decimal(n / 10);
      DecimalDetermines(m / 10, n / 10);
    }
  }

  /** Text of one key-value pair after a number, up to the next comma. */
  lemma NumberDetermines(m: nat, a: string, n: nat, b: string)
    requires Decimal(m) + "," + a == Decimal(n) + "," + b
    ensures m == n && a == b
  {
    DecimalIsDigits(m);
    DecimalIsDigits(n);
    BeforeStops(Decimal(m), ',', a);
    BeforeStops(Decimal(n), ',', b);
    DecimalDetermines(m, n);
    var k := |Decimal(m)| + 1;
    assert (Decimal(m) + "," + a)[k..] == a && (Decimal(n) + "," + b)[k..] == b;
  }

  lemma FixedDetermines(front: string, a: string, x: string, b: string, y: string)
    requires |a| == |b| && front + a + x == front + b + y
    ensures a == b && x == y
  {
    var k := |front|;
    assert (front + a + x)[k..k + |a|] == a && (front + b + y)[k..k + |a|] == b;
    assert (front + a + x)[k + |a|..] == x && (front + b + y)[k + |a|..] == y;
  }

  lemma PrefixDetermines(front: string, x: string, y: string)
    requires front + x == front + y
    ensures x == y
  {
    assert (front + x)[|front|..] == x && (front + y)[|front|..] == y;
  }

  lemma DigestsDetermine(f: string, o: string, g: string, p: string)
    requires |f| == |g| && |o| == |p| && Digests(f, o) == Digests(g, p)
    ensures f == g && o == p
  {
    FixedDetermines(FILTER, f, OWNER + o + VERSION, g, OWNER + p + VERSION);
    FixedDetermines(OWNER, o, VERSION, p, VERSION);
  }

  lemma NumberedDetermines(mark: string, m: nat, x: string, n: nat, y: string)
    requires Numbered(mark, m, x) == Numbered(mark, n, y)
    ensures m == n && x == y
  {
    PrefixDetermines(mark, Decimal(m) + "," + x, Decimal(n) + "," + y);
    NumberDetermines(m, x, n, y);
  }

  /** Documents with the same text are the same, so there is a parser that reads every one back. */
  lemma TextDetermines(a: Document, b: Document)
    requires IsWritable(a) && IsWritable(b) && Text(a) == Text(b)
    ensures a == b
  {
    FixedDetermines(BOUNDARY_ID, a.boundary.id, Numbered(BOUNDARY_TIME, a.boundary.time, FromCutoff(a)),
                    b.boundary.id, Numbered(BOUNDARY_TIME, b.boundary.time, FromCutoff(b)));
    NumberedDetermines(BOUNDARY_TIME, a.boundary.time, FromCutoff(a), b.boundary.time, FromCutoff(b));
    CutoffDetermines(a, b);
  }

  lemma CutoffDetermines(a: Document, b: Document)
    requires IsWritable(a) && IsWritable(b) && FromCutoff(a) == FromCutoff(b)
    ensures a.cutoff == b.cutoff && a.filter == b.filter && a.owner == b.owner
  {
    FixedDetermines(CUTOFF_ID, a.cutoff.id, Numbered(CUTOFF_TIME, a.cutoff.time, Digests(a.filter, a.owner)),
                    b.cutoff.id, Numbered(CUTOFF_TIME, b.cutoff.time, Digests(b.filter, b.owner)));
    NumberedDetermines(CUTOFF_TIME, a.cutoff.time, Digests(a.filter, a.owner), b.cutoff.time, Digests(b.filter, b.owner));
    DigestsDetermine(a.filter, a.owner, b.filter, b.owner);
  }

  /******* Writing and reading a cursor *******/

  ghost predicate Lawful(keys: Keys) {
    && (forall b :: |keys.sign(b)| == SIGNATURE_SIZE)
    && (forall d | IsWritable(d) && IsAscii(Text(d)) :: keys.parse(Ascii(Text(d))) == Some(d))
  }

  function Sealed(keys: Keys, payload: seq<byte>): string {
    Encode(payload) + "." + Encode(keys.sign(payload))
  }

  function EncodeCursor(keys: Keys, owner: string, filter: string, boundary: TimeKey, cutoff: TimeKey): string
    requires IsWritable(Document(boundary, cutoff, filter, keys.ownerDigest(owner)))
  {
    var document := Document(boundary, cutoff, filter, keys.ownerDigest(owner));
    TextFits(document);
    Sealed(keys, Ascii(Text(document)))
  }

  function Dots(text: string): nat {
    if text == [] then 0 else (if text[0] == '.' then 1 else 0) + Dots(text[1..])
  }

  lemma {:induction false} DotlessHasNoDots(text: string)
    requires Without(text, '.')
    ensures Dots(text) == 0 && Before(text, '.') == text
  {
    if text != [] { DotlessHasNoDots(text[1..]); }
  }

  lemma {:induction false} OneDotSplits(front: string, back: string)
    requires Without(front, '.') && Without(back, '.')
    ensures Dots(front + "." + back) == 1 && Before(front + "." + back, '.') == front
    decreases |front|
  {
    var text := front + "." + back;
    if front == [] {
      assert text[1..] == back;
      DotlessHasNoDots(back);
    } else {
      assert text[1..] == front[1..] + "." + back;
      OneDotSplits(front[1..], back);
    }
  }

  lemma {:induction false} DotInside(text: string)
    requires Dots(text) > 0
    ensures |Before(text, '.')| < |text|
  {
    if text[0] != '.' { DotInside(text[1..]); }
  }

  predicate NotAfter(a: TimeKey, b: TimeKey) {
    a == b || Earlier(a, b)
  }

  /** What a parsed document must say to be accepted for an owner and a filter. */
  predicate Acceptable(keys: Keys, document: Document, owner: string, filter: string) {
    && document.owner == keys.ownerDigest(owner) && document.filter == filter
    && IsHex(document.boundary.id, 32) && IsHex(document.cutoff.id, 32)
    && 0 <= document.boundary.time <= MAX_TIME && 0 <= document.cutoff.time <= MAX_TIME
    && NotAfter(document.boundary, document.cutoff)
  }

  function DecodeCursor(keys: Keys, cursor: string, owner: string, filter: string): Option<(TimeKey, TimeKey)> {
    if !(1 <= |cursor| <= MAX_CURSOR_LENGTH) || Dots(cursor) != 1 then None
    else
      DotInside(cursor);
      var front := Before(cursor, '.');
      var payload, signature := Decode(front), Decode(cursor[|front| + 1..]);
      if payload.None? || signature.None? then None
      else
        var document := keys.parse(payload.value);
        if document.None? || |signature.value| != SIGNATURE_SIZE || signature.value != keys.sign(payload.value) then None
        else if !Acceptable(keys, document.value, owner, filter) then None
        else Some((document.value.boundary, document.value.cutoff))
  }

  lemma SealedSplits(keys: Keys, payload: seq<byte>)
    requires Lawful(keys) && payload != []
    ensures
      var cursor, front := Sealed(keys, payload), Encode(payload);
      && Dots(cursor) == 1 && Before(cursor, '.') == front && |front| < |cursor|
      && Decode(front) == Some(payload) && Decode(cursor[|front| + 1..]) == Some(keys.sign(payload))
      && |cursor| == (4 * |payload| + 2) / 3 + 44
  {
    var front, back := Encode(payload), Encode(keys.sign(payload));
    EncodingIsInAlphabet(payload);
    EncodingIsInAlphabet(keys.sign(payload));
    OneDotSplits(front, back);
    DecodeInvertsEncode(front, payload);
    DecodeInvertsEncode(back, keys.sign(payload));
    assert Sealed(keys, payload)[|front| + 1..] == back;
  }

  lemma SealedIsAccepted(keys: Keys, payload: seq<byte>, document: Document, owner: string, filter: string)
    requires Lawful(keys) && 0 < |payload| <= 279 && keys.parse(payload) == Some(document)
    requires Acceptable(keys, document, owner, filter)
    ensures |Sealed(keys, payload)| <= 416
    ensures DecodeCursor(keys, Sealed(keys, payload), owner, filter) == Some((document.boundary, document.cutoff))
  {
    SealedSplits(keys, payload);
  }

  /** Every cursor that is issued fits the limit and reads back as the same boundary and cutoff. */
  lemma IssuedCursorReadsBack(keys: Keys, owner: string, filter: string, boundary: TimeKey, cutoff: TimeKey)
    requires Lawful(keys) && IsWritable(Document(boundary, cutoff, filter, keys.ownerDigest(owner)))
    requires NotAfter(boundary, cutoff)
    ensures
      var cursor := EncodeCursor(keys, owner, filter, boundary, cutoff);
      && |cursor| <= 416 <= MAX_CURSOR_LENGTH
      && DecodeCursor(keys, cursor, owner, filter) == Some((boundary, cutoff))
  {
    var document := Document(boundary, cutoff, filter, keys.ownerDigest(owner));
    TextFits(document);
    var payload := Ascii(Text(document));
    assert keys.parse(payload) == Some(document);
    SealedIsAccepted(keys, payload, document, owner, filter);
  }

  lemma SplitsAtDot(text: string)
    requires Dots(text) > 0
    ensures |Before(text, '.')| < |text| && text == Before(text, '.') + "." + text[|Before(text, '.')| + 1..]
  {
    DotInside(text);
    var front := Before(text, '.');
    assert text == text[..|front|] + [text[|front|]] + text[|front| + 1..];
  }

  /** The two parts of an accepted cursor decode to a payload and its signature. */
  lemma AcceptedParts(keys: Keys, cursor: string, owner: string, filter: string)
    returns (front: string, back: string, payload: seq<byte>)
    requires DecodeCursor(keys, cursor, owner, filter).Some?
    ensures cursor == front + "." + back
    ensures Decode(front) == Some(payload) && Decode(back) == Some(keys.sign(payload))
    ensures keys.parse(payload).Some? && Acceptable(keys, keys.parse(payload).value, owner, filter)
  {
    SplitsAtDot(cursor);
    front := Before(cursor, '.');
    back := cursor[|front| + 1..];
    payload := Decode(front).value;
  }

  /** What is accepted is the one sealed form of its payload: no other spelling of it passes. */
  lemma AcceptedCursorIsSealed(keys: Keys, cursor: string, owner: string, filter: string) returns (payload: seq<byte>)
    requires DecodeCursor(keys, cursor, owner, filter).Some?
    ensures cursor == Sealed(keys, payload) && keys.parse(payload).Some?
    ensures Acceptable(keys, keys.parse(payload).value, owner, filter)
  {
    var front, back, found := AcceptedParts(keys, cursor, owner, filter);
    payload := found;
    DecodeInvertsEncode(front, payload);
    DecodeInvertsEncode(back, keys.sign(payload));
  }

  predicate IsHexText(text: string, length: nat) {
    |text| == length && forall i | 0 <= i < |text| :: text[i] in "0123456789abcdef"
  }

  /** A boundary and a cutoff that a cursor may hold. */
  predicate AreBounds(boundary: TimeKey, cutoff: TimeKey) {
    && IsHexText(boundary.id, 32) && IsHexText(cutoff.id, 32)
    && 0 <= boundary.time <= 1_000_000_000_000_000_000 && 0 <= cutoff.time <= 1_000_000_000_000_000_000
    && !Earlier(cutoff, boundary)
  }

  /** The cursor is the sealed form of a document for the owner and the filter. */
  ghost predicate IsSealedFor(keys: Keys, cursor: string, document: Document, payload: seq<byte>) {
    payload != [] && cursor == Sealed(keys, payload) && keys.parse(payload) == Some(document)
  }

  lemma HexIsHexText(text: string, length: nat)
    ensures IsHex(text, length) <==> IsHexText(text, length)
  {
    var digits := "0123456789abcdef";
    forall c: char
      ensures ('0' <= c <= '9' || 'a' <= c <= 'f') <==> c in digits
    {
      if '0' <= c <= '9' { assert digits[c as int - '0' as int] == c; }
      if 'a' <= c <= 'f' { assert digits[10 + c as int - 'a' as int] == c; }
    }
  }

  lemma BoundsAreAcceptable(keys: Keys, document: Document, owner: string, filter: string)
    ensures Acceptable(keys, document, owner, filter) <==>
      document.owner == keys.ownerDigest(owner) && document.filter == filter && AreBounds(document.boundary, document.cutoff)
  {
    HexIsHexText(document.boundary.id, 32);
    HexIsHexText(document.cutoff.id, 32);
    TimeKeysAreOrdered();
  }

  /**
   A cursor is accepted exactly if it is short enough and the sealed form of a document for this
   owner and filter whose identifiers are hexadecimal, whose times are in range and in order.
   */
  lemma AcceptedExactly(keys: Keys, cursor: string, owner: string, filter: string, boundary: TimeKey, cutoff: TimeKey)
    requires Lawful(keys)
    ensures DecodeCursor(keys, cursor, owner, filter) == Some((boundary, cutoff)) <==>
      && |cursor| <= 512 && AreBounds(boundary, cutoff)
      && exists payload :: IsSealedFor(keys, cursor, Document(boundary, cutoff, filter, keys.ownerDigest(owner)), payload)
  {
    var document := Document(boundary, cutoff, filter, keys.ownerDigest(owner));
    BoundsAreAcceptable(keys, document, owner, filter);
    if DecodeCursor(keys, cursor, owner, filter) == Some((boundary, cutoff)) {
      var front, back, payload := AcceptedParts(keys, cursor, owner, filter);
      DecodeInvertsEncode(front, payload);
      DecodeInvertsEncode(back, keys.sign(payload));
      DecodedDocument(keys, cursor, owner, filter, boundary, cutoff, payload);
      assert IsSealedFor(keys, cursor, document, payload);
    }
    if payload :| |cursor| <= 512 && AreBounds(boundary, cutoff) && IsSealedFor(keys, cursor, document, payload) {
      SealedSplits(keys, payload);
    }
  }

  lemma DecodedDocument(
    keys: Keys, cursor: string, owner: string, filter: string, boundary: TimeKey, cutoff: TimeKey, payload: seq<byte>)
    requires Lawful(keys) && DecodeCursor(keys, cursor, owner, filter) == Some((boundary, cutoff))
    requires cursor == Sealed(keys, payload) && payload != []
    ensures keys.parse(payload) == Some(Document(boundary, cutoff, filter, keys.ownerDigest(owner)))
  {
    SealedSplits(keys, payload);
  }
}
