/**
 One CSV record of the submission data file, as the `/submit` handler
 builds it: three double-quoted fields (timestamp, name, message), comma
 separated, ended by a single line feed. Only `message` has its quotes
 doubled; `timestamp` and `name` are interpolated as they are.

 The reading side (`ReadQuotedBody`, `ParseRecord`) is specification only:
 a reader for the record shape the handler writes. Its fields follow
 RFC 4180, section 2 (a field enclosed in double quotes may hold commas and
 line breaks, and a quote inside it is written as two quotes); a record ends
 with a line feed, as the handler writes it, not with CRLF.
 */
module CsvRecord {
  import opened Wrappers
  import opened QuoteEscape
  import opened SeqFacts

  const Comma: char := ','
  const LineFeed: char := '\n'

  /* One submission as it is stored: the three columns of a record. */
  datatype Submission = Submission(timestamp: string, name: string, message: string)

  /* A field read off the front of the input, and the input left after it. */
  datatype FieldRead = FieldRead(field: string, rest: string)

  /* Fields read off the front of the input, and the input left after them. */
  datatype FieldsRead = FieldsRead(fields: seq<string>, rest: string)

  /* A record read off the front of the input, and the input left after it. */
  datatype RecordRead = RecordRead(record: Submission, rest: string)

  /* A field text between quotes, the separator after it, then the tail. */
  function Quoted(field: string, sep: char, tail: string): string
  {
    [Quote] + field + [Quote, sep] + tail
  }

  /* The record text with the three field texts placed between the quotes. */
  function Enclose(a: string, b: string, c: string): string
  {
    Quoted(a, Comma, Quoted(b, Comma, Quoted(c, LineFeed, [])))
  }

  lemma QuotedAppend(field: string, sep: char, tail: string, rest: string)
    ensures Quoted(field, sep, tail) + rest == Quoted(field, sep, tail + rest)
  {
  }

  /* Non-empty field lists written the way `Enclose` writes three: each
     field escaped and quoted, commas between, a line feed at the end. */
  ghost function QuotedFields(fields: seq<string>): string
    decreases |fields|
  {
    if fields == [] then []
    else if |fields| == 1 then Quoted(EscapeQuotes(fields[0]), LineFeed, [])
    else Quoted(EscapeQuotes(fields[0]), Comma, QuotedFields(fields[1..]))
  }

  /* The line the handler appends: timestamp, name as given and the escaped
     message, each between quotes, commas between them, a line feed after. */
  function CsvLine(timestamp: string, name: string, message: string): (r: string)
    ensures |r| == |timestamp| + |name| + |message| + Occurrences(message, Quote) + 9
    ensures r[0] == Quote && r[|r| - 2] == Quote && r[|r| - 1] == LineFeed
    ensures Occurrences(r, LineFeed)
            == Occurrences(timestamp, LineFeed) + Occurrences(name, LineFeed) + Occurrences(message, LineFeed) + 1
    ensures Occurrences(r, Comma)
            == Occurrences(timestamp, Comma) + Occurrences(name, Comma) + Occurrences(message, Comma) + 2
  {
    EncloseCounts(timestamp, name, EscapeQuotes(message), LineFeed);
    EncloseCounts(timestamp, name, EscapeQuotes(message), Comma);
    EscapeCounts(message, LineFeed);
    EscapeCounts(message, Comma);
    Enclose(timestamp, name, EscapeQuotes(message))
  }

  lemma QuotedCounts(field: string, sep: char, tail: string, ch: char)
    requires ch != Quote
    ensures Occurrences(Quoted(field, sep, tail), ch)
            == Occurrences(field, ch) + (if ch == sep then 1 else 0) + Occurrences(tail, ch)
  {
    var close := [Quote, sep];
    OccurrencesAppend([Quote], field, ch);
    OccurrencesAppend([Quote] + field, close, ch);
    OccurrencesAppend([Quote] + field + close, tail, ch);
    assert Occurrences([Quote], ch) == 0;
    assert Occurrences(close, ch) == (if ch == sep then 1 else 0) by {
      assert close[1..] == [sep];
      assert close[1..][1..] == [];
    }
  }

  lemma EncloseCounts(a: string, b: string, c: string, ch: char)
    requires ch != Quote
    ensures Occurrences(Enclose(a, b, c), ch)
            == Occurrences(a, ch) + Occurrences(b, ch) + Occurrences(c, ch)
               + (if ch == Comma then 2 else 0) + (if ch == LineFeed then 1 else 0)
  {
    QuotedCounts(c, LineFeed, [], ch);
    QuotedCounts(b, Comma, Quoted(c, LineFeed, []), ch);
    QuotedCounts(a, Comma, Quoted(b, Comma, Quoted(c, LineFeed, [])), ch);
  }

  /* Read the body of a quoted field, the opening quote already consumed:
     `""` stands for one quote, a lone `"` closes the field. */
  ghost function ReadQuotedBody(s: string): (r: Option<FieldRead>)
    ensures r.Some? ==> |r.value.rest| < |s|
    decreases |s|
  {
    if s == [] then None
    else if s[0] == Quote then
      if |s| >= 2 && s[1] == Quote then
        match ReadQuotedBody(s[2..])
        case None => None
        case Some(fr) => Some(FieldRead([Quote] + fr.field, fr.rest))
      else Some(FieldRead([], s[1..]))
    else
      match ReadQuotedBody(s[1..])
      case None => None
      case Some(fr) => Some(FieldRead([s[0]] + fr.field, fr.rest))
  }

  /* Read one quoted field. */
  ghost function ReadQuoted(s: string): Option<FieldRead>
  {
    if s != [] && s[0] == Quote then ReadQuotedBody(s[1..]) else None
  }

  /* Consume the separator `c` at the front of `s`. */
  ghost function Expect(c: char, s: string): Option<string>
  {
    if s != [] && s[0] == c then Some(s[1..]) else None
  }

  /* Read one quoted field and, after it, `more` further fields, each
     preceded by a comma; the last field is followed by a line feed. */
  ghost function ReadFields(s: string, more: nat): (r: Option<FieldsRead>)
    ensures r.Some? ==> |r.value.rest| < |s| && |r.value.fields| == more + 1
    decreases more
  {
    match ReadQuoted(s)
    case None => None
    case Some(f) =>
      if more == 0 then
        match Expect(LineFeed, f.rest)
        case None => None
        case Some(rest) => Some(FieldsRead([f.field], rest))
      else
        match Expect(Comma, f.rest)
        case None => None
        case Some(t) =>
          match ReadFields(t, more - 1)
          case None => None
          case Some(fs) => Some(FieldsRead([f.field] + fs.fields, fs.rest))
  }

  /* Read one record: three quoted fields separated by commas, then a line feed. */
  ghost function ParseRecord(s: string): (r: Option<RecordRead>)
    ensures r.Some? ==> |r.value.rest| < |s|
  {
    match ReadFields(s, 2)
    case None => None
    case Some(fs) => Some(RecordRead(Submission(fs.fields[0], fs.fields[1], fs.fields[2]), fs.rest))
  }

  /* The three steps of the field reader, one lemma each. */
  lemma ReadBodyClose(rest: string)
    requires rest == [] || rest[0] != Quote
    ensures ReadQuotedBody([Quote] + rest) == Some(FieldRead([], rest))
  {
    assert ([Quote] + rest)[1..] == rest;
  }

  lemma ReadBodyPair(inner: string, f: string, rest: string)
    requires ReadQuotedBody(inner) == Some(FieldRead(f, rest))
    ensures ReadQuotedBody([Quote, Quote] + inner) == Some(FieldRead([Quote] + f, rest))
  {
    assert ([Quote, Quote] + inner)[2..] == inner;
  }

  lemma ReadBodyChar(c: char, inner: string, f: string, rest: string)
    requires c != Quote && ReadQuotedBody(inner) == Some(FieldRead(f, rest))
    ensures ReadQuotedBody([c] + inner) == Some(FieldRead([c] + f, rest))
  {
    assert ([c] + inner)[1..] == inner;
  }

  /* Reading an escaped field followed by its closing quote gives the field
     back, provided the next character cannot be taken for a doubled quote. */
  lemma {:induction false} ReadEscapedField(m: string, rest: string)
    requires rest == [] || rest[0] != Quote
    ensures ReadQuotedBody(EscapeQuotes(m) + [Quote] + rest) == Some(FieldRead(m, rest))
    decreases |m|
  {
    if m == [] {
      assert EscapeQuotes(m) + [Quote] + rest == [Quote] + rest;
      ReadBodyClose(rest);
    } else {
      var tail := EscapeQuotes(m[1..]);
      var head := if m[0] == Quote then [Quote, Quote] else [m[0]];
      EscapeUnfold(m);
      ReadEscapedField(m[1..], rest);
      Regroup(head, tail, [Quote], rest);
      if m[0] == Quote {
        ReadBodyPair(tail + [Quote] + rest, m[1..], rest);
      } else {
        ReadBodyChar(m[0], tail + [Quote] + rest, m[1..], rest);
      }
      SplitFirst(m);
    }
  }

  /* Conversely, what the field reader consumes is always the escape of the
     field it returns plus the closing quote, and the input it leaves does
     not start with a quote. */
  lemma {:induction false} ReadQuotedBodyConsumes(s: string)
    requires ReadQuotedBody(s).Some?
    ensures s == EscapeQuotes(ReadQuotedBody(s).value.field) + [Quote] + ReadQuotedBody(s).value.rest
    ensures ReadQuotedBody(s).value.rest == [] || ReadQuotedBody(s).value.rest[0] != Quote
    decreases |s|
  {
    var fr := ReadQuotedBody(s).value;
    if s[0] == Quote && |s| >= 2 && s[1] == Quote {
      var inner := ReadQuotedBody(s[2..]).value;
      ReadQuotedBodyConsumes(s[2..]);
      ConsumesStep(s, [Quote, Quote], 2, fr.field, inner.field, fr.rest);
    } else if s[0] == Quote {
      assert fr.field == [];
      SplitFirst(s);
    } else {
      var inner := ReadQuotedBody(s[1..]).value;
      ReadQuotedBodyConsumes(s[1..]);
      ConsumesStep(s, [s[0]], 1, fr.field, inner.field, fr.rest);
    }
  }

  /* The inductive step of `ReadQuotedBodyConsumes`: `head` (a pair of
     quotes, or one other character) is the escape of the field's first
     character. */
  lemma ConsumesStep(s: string, head: string, k: nat, field: string, innerField: string, rest: string)
    requires k == |head| <= |s| && s[..k] == head
    requires head == [Quote, Quote] || (|head| == 1 && head[0] != Quote)
    requires field == [if head == [Quote, Quote] then Quote else head[0]] + innerField
    requires s[k..] == EscapeQuotes(innerField) + [Quote] + rest
    ensures s == EscapeQuotes(field) + [Quote] + rest
  {
    EscapeUnfold(field);
    assert field[1..] == innerField;
    assert EscapeQuotes(field) == head + EscapeQuotes(innerField);
    Regroup(head, EscapeQuotes(innerField), [Quote], rest);
    assert s == s[..k] + s[k..];
  }

  /* The record text with every field escaped: the shape RFC 4180 asks for. */
  function SafeCsvLine(timestamp: string, name: string, message: string): (r: string)
    ensures Quote !in timestamp && Quote !in name ==> r == CsvLine(timestamp, name, message)
    ensures ParseRecord(r) == Some(RecordRead(Submission(timestamp, name, message), []))
  {
    var r := Enclose(EscapeQuotes(timestamp), EscapeQuotes(name), EscapeQuotes(message));
    EscapeFixpoint(timestamp);
    EscapeFixpoint(name);
    ReadEnclosed(timestamp, name, message, []);
    assert r + [] == r;
    r
  }

  /* One escaped field in quotes reads back, leaving the separator. */
  lemma ReadQuotedField(m: string, sep: char, tail: string)
    requires sep != Quote
    ensures ReadQuoted(Quoted(EscapeQuotes(m), sep, tail)) == Some(FieldRead(m, [sep] + tail))
  {
    var e := EscapeQuotes(m);
    var after := [sep] + tail;
    var body := e + [Quote] + after;
    assert Quoted(e, sep, tail) == [Quote] + body;
    assert ([Quote] + body)[1..] == body;
    assert after[0] == sep;
    ReadEscapedField(m, after);
  }

  /* The last escaped field of a record reads back. */
  lemma ReadLastField(m: string, rest: string)
    ensures ReadFields(Quoted(EscapeQuotes(m), LineFeed, rest), 0) == Some(FieldsRead([m], rest))
  {
    ReadQuotedField(m, LineFeed, rest);
  }

  /* An escaped field followed by a comma reads back, then the reader goes on. */
  lemma ReadNextField(m: string, tail: string, more: nat, ms: seq<string>, rest: string)
    requires more > 0 && ReadFields(tail, more - 1) == Some(FieldsRead(ms, rest))
    ensures ReadFields(Quoted(EscapeQuotes(m), Comma, tail), more) == Some(FieldsRead([m] + ms, rest))
  {
    ReadQuotedField(m, Comma, tail);
  }

  lemma EncloseAppend(a: string, b: string, c: string, rest: string)
    ensures Enclose(a, b, c) + rest == Quoted(a, Comma, Quoted(b, Comma, Quoted(c, LineFeed, rest)))
  {
    QuotedAppend(c, LineFeed, [], rest);
    assert [] + rest == rest;
    QuotedAppend(b, Comma, Quoted(c, LineFeed, []), rest);
    QuotedAppend(a, Comma, Quoted(b, Comma, Quoted(c, LineFeed, [])), rest);
  }

  lemma ThreeFields(a: string, b: string, c: string)
    ensures var fields := [a] + ([b] + [c]);
            |fields| == 3 && fields[0] == a && fields[1] == b && fields[2] == c
  {
  }

  /* A record whose three fields are escaped reads back as those fields,
     whatever follows it. */
  lemma ReadEnclosed(a: string, b: string, c: string, rest: string)
    ensures ParseRecord(Enclose(EscapeQuotes(a), EscapeQuotes(b), EscapeQuotes(c)) + rest)
            == Some(RecordRead(Submission(a, b, c), rest))
  {
    var ea, eb, ec := EscapeQuotes(a), EscapeQuotes(b), EscapeQuotes(c);
    var t3 := Quoted(ec, LineFeed, rest);
    var t2 := Quoted(eb, Comma, t3);
    EncloseAppend(ea, eb, ec, rest);
    ReadLastField(c, rest);
    ReadNextField(b, t3, 1, [c], rest);
    ReadNextField(a, t2, 2, [b] + [c], rest);
    ThreeFields(a, b, c);
  }

  lemma QuotedSplit(field: string, sep: char, tail: string)
    ensures Quoted(field, sep, tail) == [Quote] + (field + [Quote] + ([sep] + tail))
  {
  }

  /* What one field read and the separator after it consume. */
  lemma ReadQuotedConsumes(s: string, sep: char)
    requires ReadQuoted(s).Some? && Expect(sep, ReadQuoted(s).value.rest).Some?
    ensures s == Quoted(EscapeQuotes(ReadQuoted(s).value.field), sep, Expect(sep, ReadQuoted(s).value.rest).value)
  {
    var f := ReadQuoted(s).value;
    ReadQuotedBodyConsumes(s[1..]);
    SplitFirst(f.rest);
    SplitFirst(s);
    QuotedSplit(EscapeQuotes(f.field), sep, f.rest[1..]);
  }

  /* What the field reader accepts is exactly escaped fields in quotes,
     separated by commas and ended by a line feed. */
  lemma {:induction false} ReadFieldsConsumes(s: string, more: nat)
    requires ReadFields(s, more).Some?
    ensures var fs := ReadFields(s, more).value;
            s == QuotedFields(fs.fields) + fs.rest
    decreases more
  {
    var fs := ReadFields(s, more).value;
    var f := ReadQuoted(s).value;
    var e := EscapeQuotes(f.field);
    if more == 0 {
      ReadQuotedConsumes(s, LineFeed);
      var rest := Expect(LineFeed, f.rest).value;
      assert fs == FieldsRead([f.field], rest);
      assert s == Quoted(e, LineFeed, rest);
      QuotedAppend(e, LineFeed, [], rest);
      assert [] + rest == rest;
      assert QuotedFields(fs.fields) == Quoted(e, LineFeed, []);
    } else {
      ReadQuotedConsumes(s, Comma);
      var t := Expect(Comma, f.rest).value;
      var inner := ReadFields(t, more - 1).value;
      ReadFieldsConsumes(t, more - 1);
      assert fs == FieldsRead([f.field] + inner.fields, inner.rest);
      assert s == Quoted(e, Comma, QuotedFields(inner.fields) + inner.rest);
      QuotedAppend(e, Comma, QuotedFields(inner.fields), inner.rest);
      assert ([f.field] + inner.fields)[1..] == inner.fields;
      assert inner.fields != [];
    }
  }

  /* What the record reader accepts is exactly a fully escaped record
     followed by the rest of the input. */
  lemma ParseRecordConsumes(s: string)
    requires ParseRecord(s).Some?
    ensures var rr := ParseRecord(s).value;
            s == SafeCsvLine(rr.record.timestamp, rr.record.name, rr.record.message) + rr.rest
  {
    var fs := ReadFields(s, 2).value;
    ReadFieldsConsumes(s, 2);
    var a, b, c := fs.fields[0], fs.fields[1], fs.fields[2];
    assert fs.fields == [a, b, c];
    assert fs.fields[1..] == [b, c];
    assert fs.fields[1..][1..] == [c];
    assert QuotedFields([c]) == Quoted(EscapeQuotes(c), LineFeed, []);
    assert QuotedFields([b, c]) == Quoted(EscapeQuotes(b), Comma, QuotedFields([c]));
    assert QuotedFields(fs.fields)
        == Enclose(EscapeQuotes(a), EscapeQuotes(b), EscapeQuotes(c));
  }

  /* The line the handler writes reads back as the submission, whatever
     follows it, when the timestamp and the name hold no quote. */
  lemma CsvLineRoundTrip(timestamp: string, name: string, message: string, rest: string)
    requires Quote !in timestamp && Quote !in name
    ensures ParseRecord(CsvLine(timestamp, name, message) + rest)
            == Some(RecordRead(Submission(timestamp, name, message), rest))
  {
    EscapeFixpoint(timestamp);
    EscapeFixpoint(name);
    ReadEnclosed(timestamp, name, message, rest);
  }

  /* ... and only then: a quote in the timestamp or in the unescaped name
     stops the line from reading back as the submission. */
  lemma CsvLineRoundTripIff(timestamp: string, name: string, message: string, rest: string)
    ensures ParseRecord(CsvLine(timestamp, name, message) + rest)
            == Some(RecordRead(Submission(timestamp, name, message), rest))
            <==> Quote !in timestamp && Quote !in name
  {
    var line := CsvLine(timestamp, name, message);
    if Quote !in timestamp && Quote !in name {
      CsvLineRoundTrip(timestamp, name, message, rest);
    } else if ParseRecord(line + rest) == Some(RecordRead(Submission(timestamp, name, message), rest)) {
      ParseRecordConsumes(line + rest);
      var safe := SafeCsvLine(timestamp, name, message);
      assert line + rest == safe + rest;
      assert |line| == |safe|;
      OccurrencesMembership(timestamp, Quote);
      OccurrencesMembership(name, Quote);
      assert false;
    }
  }

  /* The as-written line on a name holding one quote: whatever the
     timestamp (free of quotes) and for every message that starts with
     anything but a quote or a comma, the record no longer reads as three
     fields. */
  lemma NameQuoteBreaksRecord(timestamp: string, message: string)
    requires Quote !in timestamp
    requires message != [] && message[0] != Quote && message[0] != Comma
    ensures ParseRecord(CsvLine(timestamp, [Quote], message)) == None
  {
    var em := EscapeQuotes(message);
    var t2 := Quoted([Quote], Comma, Quoted(em, LineFeed, []));
    EscapeFixpoint(timestamp);
    ReadQuotedField(timestamp, Comma, t2);
    UnescapedNameField(message);
    ReaderStopsAfterFirst(CsvLine(timestamp, [Quote], message), 2, ReadQuoted(CsvLine(timestamp, [Quote], message)).value, t2);
  }

  /* When the reader fails after the first field and its comma, it fails. */
  lemma ReaderStopsAfterFirst(s: string, more: nat, f: FieldRead, t: string)
    requires more > 0 && ReadQuoted(s) == Some(f) && f.rest == [Comma] + t && ReadFields(t, more - 1) == None
    ensures ReadFields(s, more) == None
  {
    assert Expect(Comma, f.rest) == Some(t) by {
      assert f.rest[1..] == t;
    }
  }

  /* The name field `"""` of that line: `""` is taken as one quote, the
     reader runs on through the separator to the quote that opens the
     message, and what follows is no comma. */
  lemma UnescapedNameField(message: string)
    requires message != [] && message[0] != Quote && message[0] != Comma
    ensures ReadFields(Quoted([Quote], Comma, Quoted(EscapeQuotes(message), LineFeed, [])), 1) == None
  {
    var em := EscapeQuotes(message);
    var t2 := Quoted([Quote], Comma, Quoted(em, LineFeed, []));
    var r3 := em + [Quote, LineFeed];
    var b3 := [Quote] + r3;
    var b2 := [Comma] + b3;
    NameFieldShape(em);
    EscapeUnfold(message);
    assert r3[0] == message[0];
    ReadBodyClose(r3);
    ReadBodyChar(Comma, b3, [], r3);
    assert [Comma] + [] == [Comma];
    ReadBodyPair(b2, [Comma], r3);
    assert ReadQuoted(t2) == Some(FieldRead([Quote] + [Comma], r3));
    assert Expect(Comma, r3) == None;
  }

  /* The text from the name field on, character by character. */
  lemma NameFieldShape(em: string)
    ensures var t2 := Quoted([Quote], Comma, Quoted(em, LineFeed, []));
            t2[0] == Quote && t2[1..] == [Quote, Quote] + ([Comma] + ([Quote] + (em + [Quote, LineFeed])))
  {
    var t2 := Quoted([Quote], Comma, Quoted(em, LineFeed, []));
    assert Quoted(em, LineFeed, []) == [Quote] + (em + [Quote, LineFeed]);
    assert t2 == [Quote, Quote, Quote, Comma] + Quoted(em, LineFeed, []);
  }
}
