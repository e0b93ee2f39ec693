/** The whitespace-delimited text format of fields and tuples.

    A field is written as `<tag> <data_length> <value> ` and a tuple as
    `<field count> ` followed by its fields.  The tags are those of the
    `FieldType` enumeration: INT = 0, FLOAT = 1, STRING = 2.  A STRING's
    data_length counts its terminating NUL.  Reading goes token by token in
    the manner of `std::istream >>`: leading whitespace is skipped, a number
    is an optional sign followed by the longest run of digits, a string is
    the longest run of non-whitespace characters.  The length token is read
    and thrown away, and an unknown tag yields a null field (None). */
module Wire {
  import opened Common

  const INT_TAG: nat := 0
  const FLOAT_TAG: nat := 1
  const STRING_TAG: nat := 2
  /** sizeof(int) on the platforms the engine targets. */
  const INT_SIZE: nat := 4
  /** Values of size_t lie below this bound. */
  const SIZE_LIMIT: nat := 0x1_0000_0000_0000_0000

  datatype Field = IntField(i: Int32) | StringField(s: string)

  datatype Tuple = Tuple(fields: seq<Field>)

  function Tag(f: Field): nat {
    match f
    case IntField(_) => INT_TAG
    case StringField(_) => STRING_TAG
  }

  /** Bytes of the field's payload: sizeof(int), or the string and its NUL. */
  function DataLength(f: Field): (n: nat)
    ensures n > 0
    ensures f.StringField? ==> n == |f.s| + 1
  {
    match f
    case IntField(_) => INT_SIZE
    case StringField(s) => |s| + 1
  }

  /** Tuple::getSize: the sum of the fields' data lengths. Nothing in the
      source calls it; it is kept for what it states about a tuple's size. */
  function TupleSize(fields: seq<Field>): (n: nat)
    ensures n >= |fields|
  {
    if fields == [] then 0 else TupleSize(fields[..|fields| - 1]) + DataLength(fields[|fields| - 1])
  }

  /** The size of two runs of fields is the sum of their sizes; a run of
      INT fields takes sizeof(int) bytes each. */
  lemma {:induction false} TupleSizeAppend(a: seq<Field>, b: seq<Field>)
    ensures TupleSize(a + b) == TupleSize(a) + TupleSize(b)
    ensures (forall k :: 0 <= k < |b| ==> b[k].IntField?) ==> TupleSize(b) == INT_SIZE * |b|
    decreases |b|
  {
    if b == [] {
      assert a + b == a;
    } else {
      var b' := b[..|b| - 1];
      assert (a + b)[..|a + b| - 1] == a + b';
      assert (a + b)[|a + b| - 1] == b[|b| - 1];
      TupleSizeAppend(a, b');
      assert TupleSize(b) == TupleSize(b') + DataLength(b[|b| - 1]);
    }
  }

  // ---------------------------------------------------------------- characters

  /** The characters `isspace` accepts in the "C" locale. */
  predicate IsSpace(c: char) {
    c == ' ' || c == '\t' || c == '\n' || c == '\r' || c == '\U{B}' || c == '\U{C}'
  }

  predicate IsDigit(c: char) { '0' <= c <= '9' }

  predicate AllDigits(s: string) { forall k :: 0 <= k < |s| ==> IsDigit(s[k]) }

  predicate NoSpace(s: string) { forall k :: 0 <= k < |s| ==> !IsSpace(s[k]) }

  predicate NoNul(s: string) { forall k :: 0 <= k < |s| ==> s[k] != '\0' }

  function DigitChar(d: nat): (c: char)
    requires d < 10
    ensures IsDigit(c)
  {
    (('0' as int) + d) as char
  }

  function DigitValue(c: char): (d: nat)
    requires IsDigit(c)
    ensures d < 10
  {
    (c as int) - ('0' as int)
  }

  // ---------------------------------------------------------------- writing

  /** Decimal text of a natural number, without leading zeros. */
  function NatToText(n: nat): (t: string)
    ensures t != [] && AllDigits(t)
    decreases n
  {
    if n < 10 then [DigitChar(n)] else NatToText(n / 10) + [DigitChar(n % 10)]
  }

  /** How `<<` prints an int. */
  function IntToText(i: int): string {
    if i < 0 then "-" + NatToText(-i) else NatToText(i)
  }

  /** What `<<` prints for a `char*`: the characters before the first NUL. */
  function CString(s: string): (r: string)
    ensures |r| <= |s| && r == s[..|r|] && NoNul(r)
    ensures |r| < |s| ==> s[|r|] == '\0'
  {
    if s == [] || s[0] == '\0' then [] else [s[0]] + CString(s[1..])
  }

  /** The value token of Field::serialize. */
  function ValueText(f: Field): string {
    match f
    case IntField(i) => IntToText(i)
    case StringField(s) => CString(s)
  }

  /** Field::serialize. */
  function SerializeField(f: Field): string {
    NatToText(Tag(f)) + (" " + (NatToText(DataLength(f)) + (" " + (ValueText(f) + " "))))
  }

  function SerializeFields(fs: seq<Field>): string
    decreases |fs|
  {
    if fs == [] then [] else SerializeField(fs[0]) + SerializeFields(fs[1..])
  }

  /** Tuple::serialize. */
  function SerializeTuple(t: Tuple): string {
    NatToText(|t.fields|) + (" " + SerializeFields(t.fields))
  }

  // ---------------------------------------------------------------- reading

  function SkipSpace(s: string): (r: string)
    ensures |r| <= |s|
  {
    if s != [] && IsSpace(s[0]) then SkipSpace(s[1..]) else s
  }

  /** The longest prefix of `s` satisfying `IsDigit`, and what follows it. */
  function ReadDigits(s: string): (r: (string, string))
    ensures r.0 + r.1 == s && AllDigits(r.0)
    ensures r.1 == [] || !IsDigit(r.1[0])
  {
    if s != [] && IsDigit(s[0]) then
      var r := ReadDigits(s[1..]);
      ConsJoin(s, r.0, r.1);
      AllDigitsCons(s[0], r.0);
      ([s[0]] + r.0, r.1)
    else ([], s)
  }

  /** The longest prefix of `s` free of whitespace, and what follows it. */
  function ReadWord(s: string): (r: (string, string))
    ensures r.0 + r.1 == s
    ensures r.1 == [] || IsSpace(r.1[0])
  {
    if s != [] && !IsSpace(s[0]) then
      var r := ReadWord(s[1..]);
      ConsJoin(s, r.0, r.1);
      ([s[0]] + r.0, r.1)
    else ([], s)
  }

  lemma ConsJoin(s: string, a: string, b: string)
    requires s != [] && a + b == s[1..]
    ensures ([s[0]] + a) + b == s
  {
    assert ([s[0]] + a) + b == [s[0]] + (a + b);
  }

  lemma AllDigitsCons(c: char, a: string)
    requires IsDigit(c) && AllDigits(a)
    ensures AllDigits([c] + a)
  {
    var w := [c] + a;
    forall k | 0 <= k < |w| ensures IsDigit(w[k]) {
      if k > 0 { assert w[k] == a[k - 1]; }
    }
  }

  function DigitsValue(ds: string): nat
    requires AllDigits(ds)
    decreases |ds|
  {
    if ds == [] then 0 else DigitsValue(ds[..|ds| - 1]) * 10 + DigitValue(ds[|ds| - 1])
  }

  /** An optional sign and the digits after it, once whitespace is skipped. */
  function ReadSigned(s: string): Result<(bool, nat, string)> {
    var t := SkipSpace(s);
    var neg := t != [] && t[0] == '-';
    var u := if t != [] && (t[0] == '-' || t[0] == '+') then t[1..] else t;
    var (ds, rest) := ReadDigits(u);
    if ds == [] then Err(Malformed) else Ok((neg, DigitsValue(ds), rest))
  }

  /** `in >> x` for an `int` x; an out-of-range value fails the stream. */
  function ReadInt(s: string): Result<(Int32, string)> {
    var (neg, mag, rest) :- ReadSigned(s);
    var v: int := if neg then -(mag as int) else mag;
    if INT32_MIN <= v <= INT32_MAX then Ok((v, rest)) else Err(Malformed)
  }

  /** `in >> x` for a `size_t` x: a minus sign negates modulo 2^64. */
  function ReadSize(s: string): Result<(nat, string)> {
    var (neg, mag, rest) :- ReadSigned(s);
    if mag >= SIZE_LIMIT then Err(Malformed)
    else Ok((if neg then (SIZE_LIMIT - mag) % SIZE_LIMIT else mag, rest))
  }

  /** `in >> x` for a `std::string` x: the next word, or, at the end of the
      stream, the empty string the failed read leaves in x. */
  function ReadString(s: string): Result<(string, string)> {
    var (w, rest) := ReadWord(SkipSpace(s));
    Ok((w, rest))
  }

  /** Field::deserialize: None is the null pointer returned for an unknown tag,
      which leaves the value token unread. */
  function DeserializeField(s: string): Result<(Option<Field>, string)> {
    var (tag, r1) :- ReadInt(s);
    var (_, r2) :- ReadSize(r1);
    if tag == STRING_TAG then
      var (w, r3) :- ReadString(r2);
      Ok((Some(StringField(w)), r3))
    else if tag == INT_TAG then
      var (v, r3) :- ReadInt(r2);
      Ok((Some(IntField(v)), r3))
    else if tag == FLOAT_TAG then
      Err(Unsupported)
    else
      Ok((None, r2))
  }

  function DeserializeFields(s: string, count: nat): Result<(seq<Option<Field>>, string)>
    decreases count
  {
    if count == 0 then Ok(([], s))
    else
      var (f, r1) :- DeserializeField(s);
      var (fs, r2) :- DeserializeFields(r1, count - 1);
      Ok(([f] + fs, r2))
  }

  /** Tuple::deserialize: the field count, then that many fields. */
  function DeserializeTuple(s: string): Result<(seq<Option<Field>>, string)> {
    var (count, r1) :- ReadSize(s);
    DeserializeFields(r1, count)
  }

  // ---------------------------------------------------------------- round trip

  /** The fields that survive the text format: every INT, and every STRING
      that is non-empty and holds neither whitespace nor NUL. */
  predicate Portable(f: Field) {
    f.StringField? ==> f.s != [] && NoSpace(f.s) && NoNul(f.s) && |f.s| + 1 < SIZE_LIMIT
  }

  /** Every field of the sequence is portable. */
  predicate AllPortable(fs: seq<Field>)
    decreases |fs|
  {
    fs == [] || (Portable(fs[0]) && AllPortable(fs[1..]))
  }

  /** The fields as Tuple::deserialize returns them: none of them null. */
  function Lift(fs: seq<Field>): seq<Option<Field>>
    decreases |fs|
  {
    if fs == [] then [] else [Some(fs[0])] + Lift(fs[1..])
  }

  lemma {:induction false} DigitsValueOfText(n: nat)
    ensures DigitsValue(NatToText(n)) == n
    decreases n
  {
    if n >= 10 {
      var t := NatToText(n);
      assert t[..|t| - 1] == NatToText(n / 10);
      DigitsValueOfText(n / 10);
    }
  }

  lemma {:induction false} ReadDigitsSplit(ds: string, rest: string)
    requires AllDigits(ds)
    requires rest == [] || !IsDigit(rest[0])
    ensures ReadDigits(ds + rest) == (ds, rest)
    decreases |ds|
  {
    var s := ds + rest;
    if ds != [] {
      assert s[0] == ds[0] && IsDigit(s[0]);
      assert s[1..] == ds[1..] + rest;
      ReadDigitsSplit(ds[1..], rest);
      assert ReadDigits(s) == ([s[0]] + ds[1..], rest);
      assert [ds[0]] + ds[1..] == ds;
    } else {
      assert s == rest;
    }
  }

  lemma {:induction false} ReadWordSplit(w: string, rest: string)
    requires NoSpace(w)
    requires rest == [] || IsSpace(rest[0])
    ensures ReadWord(w + rest) == (w, rest)
    decreases |w|
  {
    var s := w + rest;
    if w != [] {
      assert s[0] == w[0] && !IsSpace(s[0]);
      assert s[1..] == w[1..] + rest;
      ReadWordSplit(w[1..], rest);
      assert ReadWord(s) == ([s[0]] + w[1..], rest);
      assert [w[0]] + w[1..] == w;
    } else {
      assert s == rest;
    }
  }

  lemma SkipOneSpace(s: string)
    ensures SkipSpace(" " + s) == SkipSpace(s)
  {
    assert (" " + s)[1..] == s;
  }

  /** Reading a natural number back from its decimal text. */
  lemma ReadNatText(n: nat, rest: string)
    requires rest == [] || IsSpace(rest[0])
    ensures ReadSigned(NatToText(n) + rest) == Ok((false, n, rest))
  {
    ReadSignedDigits(NatToText(n), rest);
    DigitsValueOfText(n);
  }

  lemma ReadSignedDigits(ds: string, rest: string)
    requires ds != [] && AllDigits(ds)
    requires rest == [] || IsSpace(rest[0])
    ensures ReadSigned(ds + rest) == Ok((false, DigitsValue(ds), rest))
  {
    var t := ds + rest;
    assert t[0] == ds[0];
    assert SkipSpace(t) == t;
    ReadDigitsSplit(ds, rest);
  }

  /** Reading a negative number back from a minus sign and its digits. */
  lemma ReadSignedNeg(ds: string, rest: string)
    requires ds != [] && AllDigits(ds)
    requires rest == [] || IsSpace(rest[0])
    ensures ReadSigned(['-'] + (ds + rest)) == Ok((true, DigitsValue(ds), rest))
  {
    var t := ['-'] + (ds + rest);
    assert t[0] == '-' && t[1..] == ds + rest;
    assert SkipSpace(t) == t;
    ReadDigitsSplit(ds, rest);
  }

  lemma IntTextShape(i: Int32, rest: string)
    requires i < 0
    ensures IntToText(i) + rest == ['-'] + (NatToText(-(i as int)) + rest)
  {
  }

  lemma ReadIntOfSigned(s: string, neg: bool, mag: nat, v: Int32, rest: string)
    requires ReadSigned(s) == Ok((neg, mag, rest))
    requires v == if neg then -(mag as int) else mag
    ensures ReadInt(s) == Ok((v, rest))
  {
  }

  lemma ReadIntText(i: Int32, rest: string)
    requires rest == [] || IsSpace(rest[0])
    ensures ReadInt(IntToText(i) + rest) == Ok((i, rest))
  {
    if i < 0 {
      var n: nat := -(i as int);
      IntTextShape(i, rest);
      ReadSignedNeg(NatToText(n), rest);
      DigitsValueOfText(n);
      ReadIntOfSigned(IntToText(i) + rest, true, n, i, rest);
    } else {
      ReadNatText(i, rest);
      ReadIntOfSigned(IntToText(i) + rest, false, i, i, rest);
    }
  }

  lemma ReadSizeText(n: nat, rest: string)
    requires n < SIZE_LIMIT
    requires rest == [] || IsSpace(rest[0])
    ensures ReadSize(NatToText(n) + rest) == Ok((n, rest))
  {
    ReadNatText(n, rest);
  }

  lemma ReadIntNat(n: nat, rest: string)
    requires n <= INT32_MAX
    requires rest == [] || IsSpace(rest[0])
    ensures ReadInt(NatToText(n) + rest) == Ok((n, rest))
  {
    ReadNatText(n, rest);
  }

  /** The value part of a serialized field, with what follows it. */
  lemma ReadValueText(f: Field, rest: string)
    requires Portable(f)
    ensures f.IntField? ==> ReadInt(" " + (ValueText(f) + (" " + rest))) == Ok((f.i, " " + rest))
    ensures f.StringField? ==> ReadString(" " + (ValueText(f) + (" " + rest))) == Ok((f.s, " " + rest))
  {
    match f
    case IntField(i) =>
      ReadIntSkip(IntToText(i) + (" " + rest));
      ReadIntText(i, " " + rest);
    case StringField(s) =>
      assert CString(s) == s;
      var tail := s + (" " + rest);
      SkipOneSpace(tail);
      assert SkipSpace(tail) == tail;
      ReadWordSplit(s, " " + rest);
  }

  lemma SerializeFieldShape(f: Field, rest: string)
    ensures SerializeField(f) + rest ==
      NatToText(Tag(f)) + (" " + (NatToText(DataLength(f)) + (" " + (ValueText(f) + (" " + rest)))))
  {
  }

  /** Field::deserialize inverts Field::serialize on portable fields, whatever
      follows in the stream; the trailing separator is left unread. */
  lemma FieldRoundTrip(f: Field, rest: string)
    requires Portable(f)
    ensures DeserializeField(SerializeField(f) + rest) == Ok((Some(f), " " + rest))
  {
    var afterLen := " " + (ValueText(f) + (" " + rest));
    var afterTag := " " + (NatToText(DataLength(f)) + afterLen);
    SerializeFieldShape(f, rest);
    HeaderText(Tag(f), DataLength(f), afterLen);
    ReadValueText(f, rest);
    if f.IntField? {
      DeserializeIntField(SerializeField(f) + rest, afterTag, DataLength(f), afterLen, f.i, " " + rest);
    } else {
      DeserializeStringField(SerializeField(f) + rest, afterTag, DataLength(f), afterLen, f.s, " " + rest);
    }
  }

  /** The tag and the length tokens are read back as written. */
  lemma HeaderText(tag: nat, len: nat, afterLen: string)
    requires tag <= INT32_MAX && len < SIZE_LIMIT
    requires afterLen == [] || IsSpace(afterLen[0])
    ensures ReadInt(NatToText(tag) + (" " + (NatToText(len) + afterLen))) == Ok((tag, " " + (NatToText(len) + afterLen)))
    ensures ReadSize(" " + (NatToText(len) + afterLen)) == Ok((len, afterLen))
  {
    var lenText := NatToText(len) + afterLen;
    var afterTag := " " + lenText;
    assert afterTag[0] == ' ';
    ReadIntNat(tag, afterTag);
    ReadSizeSkip(lenText);
    ReadSizeText(len, afterLen);
  }

  lemma DeserializeIntField(s: string, r1: string, len: nat, r2: string, i: Int32, r3: string)
    requires ReadInt(s) == Ok((INT_TAG as Int32, r1)) && ReadSize(r1) == Ok((len, r2))
    requires ReadInt(r2) == Ok((i, r3))
    ensures DeserializeField(s) == Ok((Some(IntField(i)), r3))
  {
  }

  lemma DeserializeStringField(s: string, r1: string, len: nat, r2: string, w: string, r3: string)
    requires ReadInt(s) == Ok((STRING_TAG as Int32, r1)) && ReadSize(r1) == Ok((len, r2))
    requires ReadString(r2) == Ok((w, r3))
    ensures DeserializeField(s) == Ok((Some(StringField(w)), r3))
  {
  }

  lemma SerializeFieldsCons(fs: seq<Field>, rest: string)
    requires fs != []
    ensures SerializeFields(fs) + rest == SerializeField(fs[0]) + (SerializeFields(fs[1..]) + rest)
  {
  }

  /** Consecutive portable fields are read back in order. */
  lemma {:induction false} FieldsRoundTrip(fs: seq<Field>, rest: string)
    requires AllPortable(fs)
    ensures DeserializeFields(" " + (SerializeFields(fs) + rest), |fs|) == Ok((Lift(fs), " " + rest))
    decreases |fs|
  {
    if fs == [] {
      FieldsRoundTripNil(fs, rest);
    } else {
      FieldsRoundTrip(fs[1..], rest);
      FieldsRoundTripStep(fs, rest);
    }
  }

  lemma FieldsRoundTripNil(fs: seq<Field>, rest: string)
    requires fs == []
    ensures DeserializeFields(" " + (SerializeFields(fs) + rest), |fs|) == Ok((Lift(fs), " " + rest))
  {
    assert SerializeFields(fs) + rest == rest;
  }

  /** One step of FieldsRoundTrip: the first field, then the others. */
  lemma FieldsRoundTripStep(fs: seq<Field>, rest: string)
    requires fs != [] && Portable(fs[0])
    requires DeserializeFields(" " + (SerializeFields(fs[1..]) + rest), |fs[1..]|) == Ok((Lift(fs[1..]), " " + rest))
    ensures DeserializeFields(" " + (SerializeFields(fs) + rest), |fs|) == Ok((Lift(fs), " " + rest))
  {
    var tail := SerializeFields(fs[1..]) + rest;
    SerializeFieldsCons(fs, rest);
    FieldAfterSpace(fs[0], tail);
    DeserializeLiftedStep(" " + (SerializeFields(fs) + rest), " " + tail, fs, " " + rest);
  }

  lemma DeserializeLiftedStep(s: string, r1: string, fs: seq<Field>, r2: string)
    requires fs != []
    requires DeserializeField(s) == Ok((Some(fs[0]), r1))
    requires DeserializeFields(r1, |fs[1..]|) == Ok((Lift(fs[1..]), r2))
    ensures DeserializeFields(s, |fs|) == Ok((Lift(fs), r2))
  {
  }

  lemma FieldAfterSpace(f: Field, rest: string)
    requires Portable(f)
    ensures DeserializeField(" " + (SerializeField(f) + rest)) == Ok((Some(f), " " + rest))
  {
    DeserializeFieldSkip(SerializeField(f) + rest);
    FieldRoundTrip(f, rest);
  }

  lemma ReadSignedSkip(s: string)
    ensures ReadSigned(" " + s) == ReadSigned(s)
  {
    SkipOneSpace(s);
  }

  lemma ReadIntSkip(s: string)
    ensures ReadInt(" " + s) == ReadInt(s)
  {
    ReadSignedSkip(s);
  }

  lemma ReadSizeSkip(s: string)
    ensures ReadSize(" " + s) == ReadSize(s)
  {
    ReadSignedSkip(s);
  }

  lemma DeserializeFieldSkip(s: string)
    ensures DeserializeField(" " + s) == DeserializeField(s)
  {
    ReadIntSkip(s);
  }

  /** Tuple::deserialize inverts Tuple::serialize when every field is
      portable: the same number of fields, each with its tag and value. */
  lemma TupleRoundTrip(t: Tuple, rest: string)
    requires |t.fields| < SIZE_LIMIT
    requires AllPortable(t.fields)
    ensures DeserializeTuple(SerializeTuple(t) + rest) == Ok((Lift(t.fields), " " + rest))
  {
    var after := " " + (SerializeFields(t.fields) + rest);
    SerializeTupleShape(t, rest);
    ReadSizeText(|t.fields|, after);
    FieldsRoundTrip(t.fields, rest);
    DeserializeTupleStep(SerializeTuple(t) + rest, |t.fields|, after, Lift(t.fields), " " + rest);
  }

  lemma SerializeTupleShape(t: Tuple, rest: string)
    ensures SerializeTuple(t) + rest == NatToText(|t.fields|) + (" " + (SerializeFields(t.fields) + rest))
  {
  }

  lemma DeserializeTupleStep(s: string, count: nat, r1: string, fs: seq<Option<Field>>, r2: string)
    requires ReadSize(s) == Ok((count, r1))
    requires DeserializeFields(r1, count) == Ok((fs, r2))
    ensures DeserializeTuple(s) == Ok((fs, r2))
  {
  }

  /** An empty string comes back only at the end of the text: the read of
      its value meets the end of the stream and leaves the string empty. */
  lemma EmptyStringAtEnd(f: Field, rest: string)
    requires f.StringField? && f.s == []
    requires SkipSpace(rest) == []
    ensures DeserializeField(SerializeField(f) + rest) == Ok((Some(f), []))
  {
    var afterLen := " " + (ValueText(f) + (" " + rest));
    var afterTag := " " + (NatToText(DataLength(f)) + afterLen);
    SerializeFieldShape(f, rest);
    HeaderText(Tag(f), DataLength(f), afterLen);
    ReadEmptyValue(ValueText(f), rest);
    DeserializeStringField(SerializeField(f) + rest, afterTag, DataLength(f), afterLen, [], []);
  }

  lemma ReadEmptyValue(v: string, rest: string)
    requires v == [] && SkipSpace(rest) == []
    ensures ReadString(" " + (v + (" " + rest))) == Ok(([], []))
  {
    assert " " + (v + (" " + rest)) == " " + (" " + rest);
    SkipOneSpace(" " + rest);
    SkipOneSpace(rest);
  }

  /** Elsewhere an empty string is lost: the read of its value skips the
      blanks and takes the next word of the text instead. */
  lemma EmptyStringTakesNext(f: Field, w: string, tail: string)
    requires f.StringField? && f.s == []
    requires w != [] && NoSpace(w) && (tail == [] || IsSpace(tail[0]))
    ensures DeserializeField(SerializeField(f) + (w + tail)) == Ok((Some(StringField(w)), tail))
  {
    var rest := w + tail;
    var afterLen := " " + (ValueText(f) + (" " + rest));
    var afterTag := " " + (NatToText(DataLength(f)) + afterLen);
    SerializeFieldShape(f, rest);
    HeaderText(Tag(f), DataLength(f), afterLen);
    ReadNextValue(ValueText(f), w, tail);
    DeserializeStringField(SerializeField(f) + rest, afterTag, DataLength(f), afterLen, w, tail);
  }

  lemma ReadNextValue(v: string, w: string, tail: string)
    requires v == [] && w != [] && NoSpace(w) && (tail == [] || IsSpace(tail[0]))
    ensures ReadString(" " + (v + (" " + (w + tail)))) == Ok((w, tail))
  {
    assert " " + (v + (" " + (w + tail))) == " " + (" " + (w + tail));
    SkipOneSpace(" " + (w + tail));
    SkipOneSpace(w + tail);
    assert (w + tail)[0] == w[0];
    assert SkipSpace(w + tail) == w + tail;
    ReadWordSplit(w, tail);
  }

  /** A string holding a blank comes back cut at the blank, and the rest of
      it is left in the stream. */
  lemma BlankSplitsString(f: Field, a: string, b: string, rest: string)
    requires f.StringField? && f.s == a + " " + b
    requires a != [] && NoSpace(a) && NoNul(a) && NoNul(b)
    requires |a| + |b| + 2 < SIZE_LIMIT
    ensures DeserializeField(SerializeField(f) + rest)
         == Ok((Some(StringField(a)), " " + (b + (" " + rest))))
  {
    var afterLen := " " + (ValueText(f) + (" " + rest));
    var afterTag := " " + (NatToText(DataLength(f)) + afterLen);
    SerializeFieldShape(f, rest);
    HeaderText(Tag(f), DataLength(f), afterLen);
    NoNulJoin(a, b);
    ReadBlankValue(a, b, rest);
    DeserializeStringField(SerializeField(f) + rest, afterTag, DataLength(f), afterLen, a, " " + (b + (" " + rest)));
  }

  lemma ReadBlankValue(a: string, b: string, rest: string)
    requires a != [] && NoSpace(a)
    ensures ReadString(" " + ((a + " " + b) + (" " + rest))) == Ok((a, " " + (b + (" " + rest))))
  {
    var tail := a + (" " + (b + (" " + rest)));
    assert (a + " " + b) + (" " + rest) == tail;
    SkipOneSpace(tail);
    assert SkipSpace(tail) == tail;
    ReadWordSplit(a, " " + (b + (" " + rest)));
  }

  lemma NoNulJoin(a: string, b: string)
    requires NoNul(a) && NoNul(b)
    ensures CString(a + " " + b) == a + " " + b
  {
    NoNulConcat(a, " ");
    NoNulConcat(a + " ", b);
    CStringOfNoNul(a + " " + b);
  }

  lemma NoNulConcat(x: string, y: string)
    requires NoNul(x) && NoNul(y)
    ensures NoNul(x + y)
  {
    forall k | 0 <= k < |x + y| ensures (x + y)[k] != '\0' {
      if k >= |x| { assert (x + y)[k] == y[k - |x|]; }
    }
  }

  lemma {:induction false} CStringOfNoNul(s: string)
    requires NoNul(s)
    ensures CString(s) == s
    decreases |s|
  {
    if s != [] {
      assert NoNul(s[1..]) by {
        forall k | 0 <= k < |s[1..]| ensures s[1..][k] != '\0' { assert s[1..][k] == s[k + 1]; }
      }
      CStringOfNoNul(s[1..]);
      assert [s[0]] + s[1..] == s;
    }
  }

  // ---------------------------------------------------------------- in a page

  /** What `<<` would print for text with `rest` after it: a NUL-free prefix
      survives whole. */
  lemma {:induction false} CStringAppend(s: string, rest: string)
    requires NoNul(s)
    ensures CString(s + rest) == s + CString(rest)
    decreases |s|
  {
    if s != [] {
      assert NoNul(s[1..]) by {
        forall k | 0 <= k < |s[1..]| ensures s[1..][k] != '\0' { assert s[1..][k] == s[k + 1]; }
      }
      assert (s + rest)[0] == s[0] && (s + rest)[1..] == s[1..] + rest;
      CStringAppend(s[1..], rest);
      assert [s[0]] + (s[1..] + CString(rest)) == s + CString(rest);
    } else {
      assert s + rest == rest;
    }
  }

  lemma NatTextNoNul(n: nat)
    ensures NoNul(NatToText(n))
  {
    var t := NatToText(n);
    forall k | 0 <= k < |t| ensures t[k] != '\0' { assert IsDigit(t[k]); }
  }

  lemma ValueTextNoNul(f: Field)
    ensures NoNul(ValueText(f))
  {
    match f
    case IntField(i) =>
      if i < 0 {
        NatTextNoNul(-(i as int));
        NoNulConcat("-", NatToText(-(i as int)));
      } else {
        NatTextNoNul(i);
      }
    case StringField(_) =>
  }

  /** A serialized field holds no NUL, whatever string it carries: the
      string is written only up to its first NUL. */
  lemma FieldTextNoNul(f: Field)
    ensures NoNul(SerializeField(f))
  {
    var v := ValueText(f) + " ";
    ValueTextNoNul(f);
    NoNulConcat(ValueText(f), " ");
    NoNulConcat(" ", v);
    NatTextNoNul(DataLength(f));
    NoNulConcat(NatToText(DataLength(f)), " " + v);
    NoNulConcat(" ", NatToText(DataLength(f)) + (" " + v));
    NatTextNoNul(Tag(f));
    NoNulConcat(NatToText(Tag(f)), " " + (NatToText(DataLength(f)) + (" " + v)));
  }

  lemma {:induction false} FieldsTextNoNul(fs: seq<Field>)
    ensures NoNul(SerializeFields(fs))
    decreases |fs|
  {
    if fs != [] {
      FieldTextNoNul(fs[0]);
      FieldsTextNoNul(fs[1..]);
      NoNulConcat(SerializeField(fs[0]), SerializeFields(fs[1..]));
    }
  }

  lemma TupleTextNoNul(t: Tuple)
    ensures NoNul(SerializeTuple(t))
  {
    FieldsTextNoNul(t.fields);
    NoNulConcat(" ", SerializeFields(t.fields));
    NatTextNoNul(|t.fields|);
    NoNulConcat(NatToText(|t.fields|), " " + SerializeFields(t.fields));
  }

  /** Every field takes at least one character of the text. */
  lemma {:induction false} FieldsTextLength(fs: seq<Field>)
    ensures |SerializeFields(fs)| >= |fs|
    decreases |fs|
  {
    if fs != [] {
      FieldsTextLength(fs[1..]);
    }
  }
}
