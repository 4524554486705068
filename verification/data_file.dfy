/**
 The data file `data/messages.csv`: every submission appends one record
 line to it, and nothing else ever writes to it. A file that does not
 exist yet is the empty string (appending creates it).

 `ParseFile` is specification only: it reads the records back, front to
 back, with the record reader of `CsvRecord`.
 */
module DataFile {
  import opened Wrappers
  import opened QuoteEscape
  import opened CsvRecord
  import opened SeqFacts

  /* Read every record of a file; `None` when some part is not a record. */
  ghost function ParseFile(s: string): Option<seq<Submission>>
    decreases |s|
  {
    if s == [] then Some([])
    else
      match ParseRecord(s)
      case None => None
      case Some(rr) =>
        match ParseFile(rr.rest)
        case None => None
        case Some(records) => Some([rr.record] + records)
  }

  /* A record reads the same whatever follows it. */
  lemma ParseRecordExtend(s: string, b: string)
    requires ParseRecord(s).Some?
    ensures ParseRecord(s + b) == Some(RecordRead(ParseRecord(s).value.record, ParseRecord(s).value.rest + b))
  {
    var rr := ParseRecord(s).value;
    var x, rest := rr.record, rr.rest;
    ParseRecordConsumes(s);
    var line := SafeCsvLine(x.timestamp, x.name, x.message);
    ConcatAssoc(line, rest, b);
    SafeLineRoundTrip(x, rest + b);
  }

  lemma SafeLineRoundTrip(x: Submission, rest: string)
    ensures ParseRecord(SafeCsvLine(x.timestamp, x.name, x.message) + rest) == Some(RecordRead(x, rest))
  {
    ReadEnclosed(x.timestamp, x.name, x.message, rest);
  }

  /* One record read off the front, then the rest of the file. */
  lemma ParseFileStep(s: string, x: Submission, rest: string)
    requires s != [] && ParseRecord(s) == Some(RecordRead(x, rest)) && ParseFile(rest).Some?
    ensures ParseFile(s) == Some([x] + ParseFile(rest).value)
  {
  }

  /* The inductive step of `ParseFileConcat`: the first record of `a` is
     read off the front of `a + b` as well. */
  lemma ParseFileConcatStep(a: string, b: string, x: Submission, rest: string, xs: seq<Submission>, ys: seq<Submission>)
    requires a != [] && ParseRecord(a) == Some(RecordRead(x, rest))
    requires ParseFile(rest + b) == Some(xs + ys)
    ensures ParseFile(a + b) == Some(([x] + xs) + ys)
  {
    var ab := a + b;
    assert |ab| > 0;
    ParseRecordExtend(a, b);
    ParseFileStep(ab, x, rest + b);
    ConcatAssoc([x], xs, ys);
  }

  /* Two readable files written one after the other read as the records of
     the first followed by the records of the second. */
  lemma {:induction false} ParseFileConcat(a: string, b: string)
    requires ParseFile(a).Some? && ParseFile(b).Some?
    ensures ParseFile(a + b) == Some(ParseFile(a).value + ParseFile(b).value)
    decreases |a|
  {
    if a == [] {
      EmptyConcat(a, b);
      EmptyConcat(ParseFile(a).value, ParseFile(b).value);
    } else {
      var rr := ParseRecord(a).value;
      ParseFileStep(a, rr.record, rr.rest);
      ParseFileConcat(rr.rest, b);
      ParseFileConcatStep(a, b, rr.record, rr.rest, ParseFile(rr.rest).value, ParseFile(b).value);
    }
  }

  /* `fs.appendFile`: the existing contents stay as they are, the appended
     text follows them, and its records come after the records already
     there. */
  function Append(file: string, line: string): (r: string)
    ensures file <= r && |r| == |file| + |line| && r[|file|..] == line
    ensures ParseFile(file).Some? && ParseFile(line).Some?
            ==> ParseFile(r) == Some(ParseFile(file).value + ParseFile(line).value)
  {
    AppendReadsBack(file, line);
    file + line
  }

  lemma AppendReadsBack(file: string, line: string)
    ensures ParseFile(file).Some? && ParseFile(line).Some?
            ==> ParseFile(file + line) == Some(ParseFile(file).value + ParseFile(line).value)
  {
    if ParseFile(file).Some? && ParseFile(line).Some? {
      ParseFileConcat(file, line);
    }
  }

  /* The effect of one `/submit` on the data file. */
  function Submit(file: string, timestamp: string, name: string, message: string): (r: string)
    ensures file <= r
    ensures r == file + CsvLine(timestamp, name, message)
    ensures ParseFile(file).Some? && Quote !in timestamp && Quote !in name
            ==> ParseFile(r) == Some(ParseFile(file).value + [Submission(timestamp, name, message)])
  {
    var line := CsvLine(timestamp, name, message);
    if Quote !in timestamp && Quote !in name then
      LineReadsAsOneRecord(timestamp, name, message);
      Append(file, line)
    else Append(file, line)
  }

  lemma LineReadsAsOneRecord(timestamp: string, name: string, message: string)
    requires Quote !in timestamp && Quote !in name
    ensures ParseFile(CsvLine(timestamp, name, message)) == Some([Submission(timestamp, name, message)])
  {
    var line := CsvLine(timestamp, name, message);
    var x := Submission(timestamp, name, message);
    CsvLineRoundTrip(timestamp, name, message, []);
    assert line + [] == line;
    assert line != [];
    assert ParseRecord(line) == Some(RecordRead(x, []));
    assert [x] + [] == [x];
  }

  /* What is left after a readable prefix must itself be readable. */
  lemma {:induction false} ParseFileSuffix(a: string, b: string)
    requires ParseFile(a).Some? && ParseFile(a + b).Some?
    ensures ParseFile(b).Some?
    decreases |a|
  {
    if a == [] {
      EmptyConcat(a, b);
    } else {
      var rr := ParseRecord(a).value;
      ParseRecordExtend(a, b);
      var ab := a + b;
      assert ab != [] by {
        assert |ab| > 0;
      }
      ParseFileSuffix(rr.rest, b);
    }
  }

  /* The same step with every field escaped: the file stays readable
     whatever the submission holds. */
  function SafeSubmit(file: string, timestamp: string, name: string, message: string): (r: string)
    ensures file <= r
    ensures r == file + SafeCsvLine(timestamp, name, message)
    ensures ParseFile(file).Some?
            ==> ParseFile(r) == Some(ParseFile(file).value + [Submission(timestamp, name, message)])
  {
    var line := SafeCsvLine(timestamp, name, message);
    var x := Submission(timestamp, name, message);
    assert line != [] by {
      assert |line| > 0;
    }
    assert ParseRecord(line) == Some(RecordRead(x, []));
    assert [x] + [] == [x];
    assert ParseFile(line) == Some([x]);
    Append(file, line)
  }

  /* The data file after a series of submissions, starting with no file:
     each one appends its line to the end, as `Submit` does. */
  ghost function Replay(submissions: seq<Submission>): string
  {
    if submissions == [] then []
    else
      var last := submissions[|submissions| - 1];
      Replay(submissions[..|submissions| - 1]) + CsvLine(last.timestamp, last.name, last.message)
  }

  /* Timestamps and names that hold no quote: the submissions whose lines
     read back. */
  ghost predicate QuoteFreeKeys(submissions: seq<Submission>)
  {
    forall i :: 0 <= i < |submissions| ==>
      Quote !in submissions[i].timestamp && Quote !in submissions[i].name
  }

  lemma QuoteFreeSplit(submissions: seq<Submission>)
    requires submissions != [] && QuoteFreeKeys(submissions)
    ensures QuoteFreeKeys(submissions[..|submissions| - 1])
    ensures var last := submissions[|submissions| - 1];
            Quote !in last.timestamp && Quote !in last.name
  {
    var earlier := submissions[..|submissions| - 1];
    forall i | 0 <= i < |earlier|
      ensures Quote !in earlier[i].timestamp && Quote !in earlier[i].name
    {
      assert earlier[i] == submissions[i];
    }
  }

  /* The last submission's record is read after all the earlier ones. */
  lemma ReplayLast(submissions: seq<Submission>)
    requires submissions != []
    requires ParseFile(Replay(submissions[..|submissions| - 1])) == Some(submissions[..|submissions| - 1])
    requires Quote !in submissions[|submissions| - 1].timestamp && Quote !in submissions[|submissions| - 1].name
    ensures ParseFile(Replay(submissions)) == Some(submissions)
  {
    var n := |submissions| - 1;
    var last := submissions[n];
    var earlier := submissions[..n];
    assert Replay(submissions) == Submit(Replay(earlier), last.timestamp, last.name, last.message);
    SplitLast(submissions);
  }

  /* Reading the data file back gives every submission, in the order they
     were made, when no timestamp or name held a quote. */
  lemma {:induction false} ReplayReadsBack(submissions: seq<Submission>)
    requires QuoteFreeKeys(submissions)
    ensures ParseFile(Replay(submissions)) == Some(submissions)
    decreases |submissions|
  {
    if submissions != [] {
      QuoteFreeSplit(submissions);
      ReplayReadsBack(submissions[..|submissions| - 1]);
      ReplayLast(submissions);
    }
  }

  lemma ReplayStep(submissions: seq<Submission>)
    requires submissions != []
    ensures Replay(submissions[..|submissions| - 1]) <= Replay(submissions)
  {
  }

  /* Later submissions never change what earlier ones wrote: the file after
     `earlier` is a prefix of the file after `earlier` and then `later`. */
  lemma {:induction false} ReplayKeepsPrefix(earlier: seq<Submission>, later: seq<Submission>)
    ensures Replay(earlier) <= Replay(earlier + later)
    decreases |later|
  {
    if later == [] {
      ConcatEmpty(earlier, later);
    } else {
      var all := earlier + later;
      var shorter := later[..|later| - 1];
      ReplayKeepsPrefix(earlier, shorter);
      DropLastOfConcat(earlier, later);
      ReplayStep(all);
      PrefixTransitive(Replay(earlier), Replay(earlier + shorter), Replay(all));
    }
  }

  /* One more submission appends its line after the file of the earlier ones. */
  lemma ReplayAppendOne(earlier: seq<Submission>, x: Submission)
    ensures Replay(earlier + [x]) == Replay(earlier) + CsvLine(x.timestamp, x.name, x.message)
  {
    var all := earlier + [x];
    assert all[..|all| - 1] == earlier;
    assert all[|all| - 1] == x;
  }

  /* As written, after any series of submissions that read back, one
     submission whose name is a single `"` leaves the data file unreadable,
     for the timestamps and messages of `NameQuoteBreaksRecord`. */
  lemma NameQuoteBreaksFile(earlier: seq<Submission>, timestamp: string, message: string)
    requires QuoteFreeKeys(earlier)
    requires Quote !in timestamp
    requires message != [] && message[0] != Quote && message[0] != Comma
    ensures ParseFile(Replay(earlier + [Submission(timestamp, [Quote], message)])) == None
  {
    var file := Replay(earlier);
    var line := CsvLine(timestamp, [Quote], message);
    ReplayAppendOne(earlier, Submission(timestamp, [Quote], message));
    ReplayReadsBack(earlier);
    NameQuoteBreaksRecord(timestamp, message);
    assert line != [] by {
      assert |line| > 0;
    }
    assert ParseFile(line) == None;
    if ParseFile(file + line).Some? {
      ParseFileSuffix(file, line);
    }
  }
}
