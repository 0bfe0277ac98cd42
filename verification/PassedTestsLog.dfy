// The crash-tolerant log of passed tests in run-tests.js: every record ends with a NUL character,
// and whatever follows the last NUL is dropped when the log is read.
module PassedTestsLog {
  import opened Wrappers
  import opened Sequences
  import opened Delimited
  import Utf8

  // A test file name holds no NUL.
  predicate IsName(s: string) {
    NUL !in s
  }

  predicate AreNames(names: seq<string>) {
    forall i :: 0 <= i < |names| ==> IsName(names[i])
  }

  // ---------- Writer ----------

  function Log(names: seq<string>): seq<Byte> {
    if names == [] then [] else Log(names[..|names| - 1]) + Utf8.Encode(names[|names| - 1]) + [0]
  }

  lemma LogNext(names: seq<string>, k: nat)
    requires k < |names|
    ensures Log(names[..k + 1]) == Log(names[..k]) + Utf8.Encode(names[k]) + [0]
  {
    assert names[..k + 1][..k] == names[..k];
  }

  // The log file, open for appending. That a write may fail midway is modelled below, by attempts.
  class PassedTests {
    var data: seq<Byte>

    constructor (restored: seq<Byte>)
      ensures data == restored
    {
      data := restored;
    }

    method RecordPassed(file: string)
      modifies this
      ensures data == old(data) + Utf8.Encode(file) + [0]
    {
      assert (file + [NUL])[..|file|] == file;
      data := data + Utf8.Encode(file + [NUL]);
    }

    method RecordAll(files: seq<string>)
      modifies this
      ensures data == old(data) + Log(files)
    {
      for i := 0 to |files|
        invariant data == old(data) + Log(files[..i])
      {
        LogNext(files, i);
        RecordPassed(files[i]);
      }
      assert files[..|files|] == files;
    }
  }

  // ---------- Reader ----------

  function ToSet(lines: seq<string>): set<string> {
    set l | l in lines
  }

  // None is a log that is absent or unreadable.
  function LoadPassedTests(cachingEnabled: bool, file: Option<seq<Byte>>): set<string> {
    if !cachingEnabled || file.None? then {}
    else
      var data := Utf8.Decode(file.value);
      var lines := Split(data, NUL);
      if data != "" && data[|data| - 1] == NUL then ToSet(lines) else ToSet(lines[..|lines| - 1])
  }

  // The non-empty ones among the lines.
  function Tests(lines: seq<string>): set<string> {
    ToSet(lines) - {""}
  }

  // What counts as skippable: the empty string is no test.
  function Skippable(data: seq<Byte>): set<string> {
    LoadPassedTests(true, Some(data)) - {""}
  }

  // The text after the last NUL.
  function Unfinished(data: seq<Byte>): string {
    var lines := Split(Utf8.Decode(data), NUL);
    lines[|lines| - 1]
  }

  // ---------- Reading bytes ----------

  function Encoded(names: seq<string>): seq<seq<Byte>> {
    seq(|names|, i requires 0 <= i < |names| => Utf8.Encode(names[i]))
  }

  function Decoded(records: seq<seq<Byte>>): seq<string> {
    seq(|records|, i requires 0 <= i < |records| => Utf8.Decode(records[i]))
  }

  lemma {:induction false} DecodeJoin(records: seq<seq<Byte>>, rest: seq<Byte>)
    ensures Utf8.Decode(Join(records, 0) + rest) == Join(Decoded(records), NUL) + Utf8.Decode(rest)
    decreases |records|
  {
    if records == [] {
      assert [] + rest == rest;
    } else {
      var init, last := records[..|records| - 1], records[|records| - 1];
      DecodeJoin(init, last);
      assert Utf8.Encode([NUL]) == [0];
      Utf8.DecodeAround(Join(init, 0) + last, [NUL], rest);
      assert Decoded(records)[..|init|] == Decoded(init);
    }
  }

  lemma DecodedPlain(records: seq<seq<Byte>>)
    requires Plain(records, 0)
    ensures Plain(Decoded(records), NUL)
  {
    forall i | 0 <= i < |records|
      ensures NUL !in Decoded(records)[i]
    {
      Utf8.DecodeNul(records[i]);
    }
  }

  // Splitting the text is splitting the bytes: no malformed sequence swallows a terminator.
  lemma SplitDecoded(records: seq<seq<Byte>>, rest: seq<Byte>)
    requires Plain(records, 0) && 0 !in rest
    ensures Split(Utf8.Decode(Join(records, 0) + rest), NUL) == Decoded(records) + [Utf8.Decode(rest)]
  {
    DecodeJoin(records, rest);
    DecodedPlain(records);
    Utf8.DecodeNul(rest);
    SplitRecords(Decoded(records), Utf8.Decode(rest), NUL);
  }

  // Of split text, what is kept is all lines but the last, whether or not that one is empty.
  lemma KeptLines(text: string, lines: seq<string>, last: string)
    requires Split(text, NUL) == lines + [last]
    ensures (if text != "" && text[|text| - 1] == NUL then ToSet(Split(text, NUL)) else ToSet(lines)) - {""}
            == Tests(lines)
    ensures (lines + [last])[..|lines|] == lines
  {
    if text != "" && text[|text| - 1] == NUL {
      assert (lines + [last])[|lines|] == "";
      assert ToSet(lines + [last]) == ToSet(lines) + {""};
    }
  }

  // What is skipped, and what is unfinished, line by line of the bytes.
  lemma ReadRecords(records: seq<seq<Byte>>, rest: seq<Byte>)
    requires Plain(records, 0) && 0 !in rest
    ensures Skippable(Join(records, 0) + rest) == Tests(Decoded(records))
    ensures Unfinished(Join(records, 0) + rest) == Utf8.Decode(rest)
  {
    SplitDecoded(records, rest);
    KeptLines(Utf8.Decode(Join(records, 0) + rest), Decoded(records), Utf8.Decode(rest));
  }

  lemma {:induction false} LogIsJoin(names: seq<string>)
    ensures Log(names) == Join(Encoded(names), 0)
  {
    if names != [] {
      LogIsJoin(names[..|names| - 1]);
      assert Encoded(names)[..|names| - 1] == Encoded(names[..|names| - 1]);
    }
  }

  lemma EncodedPlain(names: seq<string>)
    requires AreNames(names)
    ensures Plain(Encoded(names), 0) && Decoded(Encoded(names)) == names
  {
    forall i | 0 <= i < |names|
      ensures 0 !in Encoded(names)[i] && Decoded(Encoded(names))[i] == names[i]
    {
      Utf8.EncodeNul(names[i]);
      Utf8.RoundTrip(names[i]);
    }
  }

  lemma TextEnds(records: seq<seq<Byte>>, rest: seq<Byte>)
    requires Plain(records, 0) && 0 !in rest
    ensures var text := Utf8.Decode(Join(records, 0) + rest);
            text != "" && text[|text| - 1] == NUL <==> rest == [] && records != []
  {
    DecodeJoin(records, rest);
    if rest == [] {
      assert records != [] ==> Join(Decoded(records), NUL) != "";
    } else {
      Utf8.DecodedSomething(rest);
      Utf8.DecodeNul(rest);
      var end := Utf8.Decode(rest);
      assert end[|end| - 1] in end;
    }
  }

  // Only with caching, and only of a log that can be read, is anything loaded: the tests of the
  // records, and the empty name if the log ends with a terminator.
  lemma LoadedExactly(cachingEnabled: bool, file: Option<seq<Byte>>, records: seq<seq<Byte>>, rest: seq<Byte>)
    requires file.Some? ==> file.value == Join(records, 0) + rest && Plain(records, 0) && 0 !in rest
    ensures LoadPassedTests(cachingEnabled, file)
            == if !cachingEnabled || file.None? then {}
               else (set t | t in Decoded(records)) + if rest == [] && records != [] then {""} else {}
  {
    if cachingEnabled && file.Some? {
      SplitDecoded(records, rest);
      TextEnds(records, rest);
      var lines := Decoded(records);
      assert (lines + [Utf8.Decode(rest)])[..|lines|] == lines;
      assert ToSet(lines + [""]) == ToSet(lines) + {""};
    }
  }

  // ---------- Cutting the log ----------

  // Where record `i` ends, its terminator included.
  function EndOf(names: seq<string>, i: nat): nat
    requires i < |names|
  {
    |Log(names[..i + 1])|
  }

  // How many records lie, with their terminators, before the cut.
  function Completed(names: seq<string>, cut: nat): (k: nat)
    ensures k <= |names|
  {
    if |Log(names)| <= cut then |names| else Completed(names[..|names| - 1], cut)
  }

  lemma {:induction false} LogGrows(names: seq<string>, k: nat)
    requires k <= |names|
    ensures |Log(names[..k])| <= |Log(names)|
  {
    if k == |names| {
      assert names[..k] == names;
    } else {
      LogGrows(names[..|names| - 1], k);
      assert names[..|names| - 1][..k] == names[..k];
    }
  }

  lemma {:induction false} CompletedExact(names: seq<string>, cut: nat, i: nat)
    requires i < |names|
    ensures EndOf(names, i) <= cut <==> i < Completed(names, cut)
  {
    var init := names[..|names| - 1];
    LogGrows(names, i + 1);
    if |Log(names)| > cut {
      if i < |init| {
        CompletedExact(init, cut, i);
        assert init[..i + 1] == names[..i + 1];
      } else {
        assert names[..i + 1] == names;
      }
    }
  }

  lemma CutBefore(before: seq<Byte>, record: seq<Byte>, cut: nat)
    requires cut <= |before|
    ensures (before + record + [0])[..cut] == before[..cut]
  {
  }

  lemma CutWithin(before: seq<Byte>, record: seq<Byte>, cut: nat)
    requires |before| <= cut <= |before| + |record|
    ensures (before + record + [0])[..cut] == before + record[..cut - |before|]
  {
  }

  // A cut anywhere, even within a character, leaves the complete records and part of the next one.
  lemma {:induction false} CutSplits(names: seq<string>, cut: nat) returns (partial: seq<Byte>)
    requires AreNames(names) && cut <= |Log(names)|
    ensures 0 !in partial && Log(names)[..cut] == Log(names[..Completed(names, cut)]) + partial
  {
    if |Log(names)| == cut {
      partial := [];
      assert names[..|names|] == names;
    } else {
      var init, last := names[..|names| - 1], names[|names| - 1];
      if cut < |Log(init)| {
        partial := CutSplits(init, cut);
        CutBefore(Log(init), Utf8.Encode(last), cut);
        assert init[..Completed(init, cut)] == names[..Completed(init, cut)];
      } else {
        Utf8.EncodeNul(last);
        partial := Utf8.Encode(last)[..cut - |Log(init)|];
        CutWithin(Log(init), Utf8.Encode(last), cut);
        assert init[..|init|] == init;
      }
    }
  }

  // ---------- Appending to any log ----------

  // The records as read: the first new name is glued to the unfinished text.
  function Glued(unfinished: string, names: seq<string>): seq<string> {
    if names == [] then [] else [unfinished + names[0]] + names[1..]
  }

  lemma GluedToNothing(names: seq<string>)
    ensures Glued("", names) == names
  {
    if names != [] { assert "" + names[0] == names[0]; }
  }

  function GluedBytes(rest: seq<Byte>, names: seq<string>): seq<seq<Byte>> {
    if names == [] then [] else [rest + Utf8.Encode(names[0])] + Encoded(names[1..])
  }

  lemma GluedIsAppended(rest: seq<Byte>, names: seq<string>)
    requires names != []
    ensures rest + Log(names) == Join(GluedBytes(rest, names), 0)
  {
    var first, others := Utf8.Encode(names[0]), Encoded(names[1..]);
    LogIsJoin(names);
    assert Encoded(names) == [first] + others;
    JoinAppend([first], others, 0);
    JoinAppend([rest + first], others, 0);
    JoinOne(first, 0);
    JoinOne(rest + first, 0);
    Associative(rest, first + [0], Join(others, 0));
    Associative(rest, first, [0]);
  }

  lemma DecodeGlued(rest: seq<Byte>, name: string)
    ensures Utf8.Decode(rest + Utf8.Encode(name)) == Utf8.Decode(rest) + name
  {
    if name == "" {
      assert rest + Utf8.Encode(name) == rest;
    } else {
      Utf8.DecodeAround(rest, name, []);
      assert rest + Utf8.Encode(name) + [] == rest + Utf8.Encode(name);
    }
  }

  lemma DecodedAppend(a: seq<seq<Byte>>, b: seq<seq<Byte>>)
    ensures Decoded(a + b) == Decoded(a) + Decoded(b)
  {
  }

  lemma GluedReads(rest: seq<Byte>, names: seq<string>)
    requires names != [] && AreNames(names) && 0 !in rest
    ensures Plain(GluedBytes(rest, names), 0) && Decoded(GluedBytes(rest, names)) == Glued(Utf8.Decode(rest), names)
  {
    EncodedPlain(names[1..]);
    Utf8.EncodeNul(names[0]);
    DecodeGlued(rest, names[0]);
    DecodedAppend([rest + Utf8.Encode(names[0])], Encoded(names[1..]));
    assert Decoded([rest + Utf8.Encode(names[0])]) == [Utf8.Decode(rest) + names[0]];
  }

  lemma TestsAppend(a: seq<string>, b: seq<string>)
    ensures Tests(a + b) == Tests(a) + Tests(b)
  {
  }

  lemma AppendedInside(a: seq<Byte>, b: seq<Byte>, c: seq<Byte>, d: seq<Byte>)
    ensures a + b + (c + d) == a + (b + c) + d
  {
  }

  // The bytes of a log to which records were appended, as records and an unfinished rest.
  lemma AppendedBytes(records: seq<seq<Byte>>, rest: seq<Byte>, names: seq<string>, partial: seq<Byte>)
    requires names != []
    ensures Join(records, 0) + rest + (Log(names) + partial) == Join(records + GluedBytes(rest, names), 0) + partial
  {
    GluedIsAppended(rest, names);
    JoinAppend(records, GluedBytes(rest, names), 0);
    AppendedInside(Join(records, 0), rest, Log(names), partial);
  }

  lemma AppendedRecords(records: seq<seq<Byte>>, rest: seq<Byte>, names: seq<string>, partial: seq<Byte>)
    requires Plain(records, 0) && 0 !in rest && AreNames(names) && 0 !in partial && names != []
    ensures Skippable(Join(records, 0) + rest + (Log(names) + partial))
            == Tests(Decoded(records)) + Tests(Glued(Utf8.Decode(rest), names))
  {
    var glued := GluedBytes(rest, names);
    AppendedBytes(records, rest, names, partial);
    GluedReads(rest, names);
    ReadRecords(records + glued, partial);
    DecodedAppend(records, glued);
    TestsAppend(Decoded(records), Decoded(glued));
  }

  lemma NothingAppended(records: seq<seq<Byte>>, rest: seq<Byte>, partial: seq<Byte>)
    requires Plain(records, 0) && 0 !in rest && 0 !in partial
    ensures Skippable(Join(records, 0) + rest + partial) == Tests(Decoded(records))
  {
    Associative(Join(records, 0), rest, partial);
    ReadRecords(records, rest + partial);
  }

  // Records appended to any log, and cut anywhere: besides what was skipped before, exactly the
  // complete ones are, the first of them glued to what the log had left unfinished.
  lemma AppendedLogExact(data: seq<Byte>, names: seq<string>, cut: nat)
    requires AreNames(names) && cut <= |Log(names)|
    ensures Skippable(data + Log(names)[..cut])
            == Skippable(data) + Tests(Glued(Unfinished(data), names[..Completed(names, cut)]))
  {
    var lines, k := Split(data, 0), Completed(names, cut);
    var partial := CutSplits(names, cut);
    var records, rest := lines[..|lines| - 1], lines[|lines| - 1];
    SplitBack(data, 0);
    ReadRecords(records, rest);
    if k == 0 {
      assert Log(names[..k]) + partial == partial;
      NothingAppended(records, rest, partial);
    } else {
      AppendedRecords(records, rest, names[..k], partial);
    }
  }

  lemma NothingLogged()
    ensures Skippable([]) == {} && Unfinished([]) == ""
  {
    ReadRecords([], []);
    assert Join<Byte>([], 0) + [] == [];
  }

  // A log that was empty, written and cut is read as its complete records.
  lemma CutLogReads(names: seq<string>, cut: nat)
    requires AreNames(names) && cut <= |Log(names)|
    ensures Skippable(Log(names)[..cut]) == Tests(names[..Completed(names, cut)])
  {
    NothingLogged();
    AppendedLogExact([], names, cut);
    assert [] + Log(names)[..cut] == Log(names)[..cut];
    GluedToNothing(names[..Completed(names, cut)]);
  }

  // So exactly the tests of complete records are skipped.
  lemma CutLogExact(names: seq<string>, cut: nat, t: string)
    requires AreNames(names) && cut <= |Log(names)| && t != ""
    ensures t in Skippable(Log(names)[..cut])
            <==> exists i :: 0 <= i < |names| && EndOf(names, i) <= cut && names[i] == t
  {
    var complete := names[..Completed(names, cut)];
    CutLogReads(names, cut);
    if i :| 0 <= i < |complete| && complete[i] == t {
      CompletedExact(names, cut, i);
      assert names[i] == t;
    }
    if i :| 0 <= i < |names| && EndOf(names, i) <= cut && names[i] == t {
      CompletedExact(names, cut, i);
      assert complete[i] == t;
    }
  }

  // ---------- Several attempts ----------

  // An attempt appends the records of the tests that pass, up to a write that fails midway or a
  // crash, which cuts what it appended. A failed write is caught and the run goes on appending: such
  // a run counts as several attempts, one after another.
  datatype Attempt = Attempt(passed: seq<string>, cut: nat) {
    predicate Possible() {
      AreNames(passed) && cut <= |Log(passed)|
    }

    function Recorded(): seq<string> {
      passed[..Completed(passed, cut)]
    }
  }

  predicate Possible(attempts: seq<Attempt>) {
    forall j :: 0 <= j < |attempts| ==> attempts[j].Possible()
  }

  // The log as every further attempt finds it.
  function LogAfter(attempts: seq<Attempt>): seq<Byte>
    requires Possible(attempts)
  {
    if attempts == [] then []
    else
      var last := attempts[|attempts| - 1];
      LogAfter(attempts[..|attempts| - 1]) + Log(last.passed)[..last.cut]
  }

  predicate DidPass(attempts: seq<Attempt>, t: string) {
    exists j :: 0 <= j < |attempts| && t in attempts[j].passed
  }

  // What attempt `j` adds to the log as it is read.
  function ReadAs(attempts: seq<Attempt>, j: nat): seq<string>
    requires Possible(attempts) && j < |attempts|
  {
    Glued(Unfinished(LogAfter(attempts[..j])), attempts[j].Recorded())
  }

  function ReadLists(attempts: seq<Attempt>): (r: seq<seq<string>>)
    requires Possible(attempts)
    ensures |r| == |attempts|
  {
    if attempts == [] then [] else ReadLists(attempts[..|attempts| - 1]) + [ReadAs(attempts, |attempts| - 1)]
  }

  // What an attempt adds does not depend on later attempts.
  lemma ReadAsPrefix(attempts: seq<Attempt>, j: nat)
    requires Possible(attempts) && j < |attempts| - 1
    ensures ReadAs(attempts[..|attempts| - 1], j) == ReadAs(attempts, j)
  {
    assert attempts[..|attempts| - 1][..j] == attempts[..j];
  }

  lemma {:induction false} ReadListsAt(attempts: seq<Attempt>, j: nat, r: seq<string>)
    requires Possible(attempts) && j < |attempts| && r == ReadAs(attempts, j)
    ensures ReadLists(attempts)[j] == r
  {
    if j < |attempts| - 1 {
      ReadAsPrefix(attempts, j);
      ReadListsAt(attempts[..|attempts| - 1], j, r);
    }
  }

  function AllTests(lists: seq<seq<string>>): set<string> {
    if lists == [] then {} else AllTests(lists[..|lists| - 1]) + Tests(lists[|lists| - 1])
  }

  lemma {:induction false} AllTestsMembers(lists: seq<seq<string>>, t: string)
    ensures t in AllTests(lists) <==> t != "" && exists j :: 0 <= j < |lists| && t in lists[j]
  {
    if lists != [] { AllTestsMembers(lists[..|lists| - 1], t); }
  }

  lemma {:induction false} SkippedAfter(attempts: seq<Attempt>)
    requires Possible(attempts)
    ensures Skippable(LogAfter(attempts)) == AllTests(ReadLists(attempts))
  {
    if attempts == [] {
      NothingLogged();
    } else {
      var last := attempts[|attempts| - 1];
      SkippedAfter(attempts[..|attempts| - 1]);
      AppendedLogExact(LogAfter(attempts[..|attempts| - 1]), last.passed, last.cut);
    }
  }

  // Over any attempts: exactly the records as read are skipped.
  lemma SkippedExact(attempts: seq<Attempt>, t: string)
    requires Possible(attempts)
    ensures t in Skippable(LogAfter(attempts))
            <==> t != "" && exists j :: 0 <= j < |attempts| && t in ReadAs(attempts, j)
  {
    SkippedAfter(attempts);
    AllTestsMembers(ReadLists(attempts), t);
    forall j | 0 <= j < |attempts|
      ensures ReadLists(attempts)[j] == ReadAs(attempts, j)
    {
      ReadListsAt(attempts, j, ReadAs(attempts, j));
    }
  }

  // Attempt `j` completed no record, or found nothing unfinished, or its first record as read is
  // the name of a test that passed.
  predicate Harmless(attempts: seq<Attempt>, j: nat)
    requires Possible(attempts) && j < |attempts|
  {
    var unfinished, recorded := Unfinished(LogAfter(attempts[..j])), attempts[j].Recorded();
    recorded == [] || unfinished == "" || DidPass(attempts, unfinished + recorded[0])
  }

  lemma HarmlessReads(attempts: seq<Attempt>, j: nat, t: string)
    requires Possible(attempts) && j < |attempts| && Harmless(attempts, j) && t in ReadAs(attempts, j)
    ensures DidPass(attempts, t)
  {
    var unfinished, recorded := Unfinished(LogAfter(attempts[..j])), attempts[j].Recorded();
    if t == unfinished + recorded[0] {
      if unfinished == "" {
        assert t == recorded[0] == attempts[j].passed[0];
      }
    } else {
      assert t in recorded[1..];
      assert t in attempts[j].passed;
    }
  }

  // Over any attempts, every skipped test did pass exactly when every attempt is harmless.
  lemma SkippedDidPassIff(attempts: seq<Attempt>)
    requires Possible(attempts)
    ensures (forall t :: t in Skippable(LogAfter(attempts)) ==> DidPass(attempts, t))
            <==> forall j :: 0 <= j < |attempts| ==> Harmless(attempts, j)
  {
    if forall t :: t in Skippable(LogAfter(attempts)) ==> DidPass(attempts, t) {
      forall j | 0 <= j < |attempts|
        ensures Harmless(attempts, j)
      {
        if !Harmless(attempts, j) {
          var t := ReadAs(attempts, j)[0];
          assert t in ReadAs(attempts, j);
          SkippedExact(attempts, t);
        }
      }
    }
    if forall j :: 0 <= j < |attempts| ==> Harmless(attempts, j) {
      forall t | t in Skippable(LogAfter(attempts))
        ensures DidPass(attempts, t)
      {
        SkippedExact(attempts, t);
        var j :| 0 <= j < |attempts| && t in ReadAs(attempts, j);
        HarmlessReads(attempts, j, t);
      }
    }
  }

  // With a single attempt, that is in a run without a failed write in between, nothing can go wrong.
  lemma OneAttemptIsSafe(a: Attempt, t: string)
    requires a.Possible() && t in Skippable(LogAfter([a]))
    ensures t in a.passed
  {
    assert LogAfter([]) == [] && [a][..0] == [] && Utf8.Decode([]) == "";
    assert Harmless([a], 0);
    SkippedDidPassIff([a]);
  }

  // A test that never ran is skipped: "ac" passed and was cut after one character, then "b" passed.
  const GLUED: seq<Attempt> := [Attempt(["ac"], 1), Attempt(["b"], 2)]

  lemma LogOfOne(name: string)
    ensures Log([name]) == Utf8.Encode(name) + [0]
  {
    LogNext([name], 0);
    assert [name][..1] == [name] && [name][..0] == [];
  }

  lemma GluedLogs()
    ensures Log(["ac"]) == [97, 99, 0] && Log(["b"]) == [98, 0]
  {
    LogOfOne("ac");
    LogOfOne("b");
    assert "ac"[..1] == "a" && "a"[..0] == "" && "b"[..0] == "";
    assert Utf8.Encode("a") == [97] && Utf8.Encode("ac") == [97, 99] && Utf8.Encode("b") == [98];
  }

  lemma UnfinishedA()
    ensures Unfinished([97]) == "a"
  {
    assert Utf8.Encode("a") == [97] by { assert "a"[..0] == ""; }
    Utf8.RoundTrip("a");
    ReadRecords([], [97]);
    assert Join<Byte>([], 0) + [97] == [97];
  }

  lemma LogOfFirst(first: Attempt)
    requires first.Possible()
    ensures LogAfter([first]) == Log(first.passed)[..first.cut]
  {
    assert [first][..0] == [];
    assert [] + Log(first.passed)[..first.cut] == Log(first.passed)[..first.cut];
  }

  // The first record of a second attempt is read as glued to what the first one left unfinished.
  lemma SecondIsGlued(first: Attempt, second: Attempt)
    requires first.Possible() && second.Possible() && second.Recorded() != []
    ensures Possible([first, second])
    ensures ReadAs([first, second], 1)
            == Glued(Unfinished(Log(first.passed)[..first.cut]), second.Recorded())
  {
    LogOfFirst(first);
    assert [first, second][..1] == [first];
  }

  lemma GluedRead()
    ensures Possible(GLUED) && "ab" in ReadAs(GLUED, 1)
  {
    GluedLogs();
    UnfinishedA();
    assert [97, 99, 0][..1] == [97];
    assert GLUED[1].Recorded() == ["b"];
    SecondIsGlued(GLUED[0], GLUED[1]);
    assert "a" + "b" == "ab" && Glued("a", ["b"])[0] == "ab";
  }

  lemma NeverPassed()
    ensures !DidPass(GLUED, "ab")
  {
    assert "ab"[1] != "ac"[1] && |"ab"| != |"b"|;
  }

  lemma GluedNameIsSkipped()
    ensures Possible(GLUED) && "ab" in Skippable(LogAfter(GLUED)) && !DidPass(GLUED, "ab")
  {
    GluedRead();
    SkippedExact(GLUED, "ab");
    NeverPassed();
  }
}
