// Lists written with a terminator after each member, and read by splitting at the terminators.
module Delimited {
  import opened Sequences

  const NUL: char := '\0'

  // Each record, with a terminator after it.
  function Join<T>(records: seq<seq<T>>, end: T): seq<T> {
    if records == [] then [] else Join(records[..|records| - 1], end) + records[|records| - 1] + [end]
  }

  // The lines with the last one extended.
  function Extended<T>(lines: seq<seq<T>>, tail: seq<T>): seq<seq<T>>
    requires |lines| > 0
  {
    lines[..|lines| - 1] + [lines[|lines| - 1] + tail]
  }

  lemma ExtendedNext<T>(lines: seq<seq<T>>, tail: seq<T>, x: T)
    requires |lines| > 0
    ensures Extended(Extended(lines, tail), [x]) == Extended(lines, tail + [x])
  {
    Associative(lines[|lines| - 1], tail, [x]);
  }

  lemma ExtendedByNothing<T>(lines: seq<seq<T>>)
    requires |lines| > 0
    ensures Extended(lines, []) == lines
  {
    assert lines[|lines| - 1] + [] == lines[|lines| - 1];
  }

  // data.split('\0')
  function Split<T(==)>(data: seq<T>, end: T): (lines: seq<seq<T>>)
    ensures |lines| > 0
  {
    if data == [] then [[]]
    else
      var lines := Split(data[..|data| - 1], end);
      var last := data[|data| - 1];
      if last == end then lines + [[]] else Extended(lines, [last])
  }

  // Text without a terminator extends the last line.
  lemma {:induction false} SplitPlain<T>(data: seq<T>, tail: seq<T>, end: T)
    requires end !in tail
    ensures Split(data + tail, end) == Extended(Split(data, end), tail)
    decreases |tail|
  {
    if tail == [] {
      assert data + tail == data;
      ExtendedByNothing(Split(data, end));
    } else {
      var init, last := tail[..|tail| - 1], tail[|tail| - 1];
      SplitPlain(data, init, end);
      assert (data + tail)[..|data + tail| - 1] == data + init;
      ExtendedNext(Split(data, end), init, last);
      assert init + [last] == tail;
    }
  }

  ghost predicate Plain<T>(records: seq<seq<T>>, end: T) {
    forall i :: 0 <= i < |records| ==> end !in records[i]
  }

  // Complete records, then text without a terminator.
  lemma {:induction false} SplitRecords<T>(records: seq<seq<T>>, rest: seq<T>, end: T)
    requires Plain(records, end) && end !in rest
    ensures Split(Join(records, end) + rest, end) == records + [rest]
    decreases |records|
  {
    if records == [] {
      SplitPlain([], rest, end);
      assert [] + rest == rest;
    } else {
      var init, last := records[..|records| - 1], records[|records| - 1];
      SplitRecords(init, last, end);
      var data := Join(init, end) + last;
      assert (data + [end])[..|data|] == data;
      SplitPlain(data + [end], rest, end);
      assert [] + rest == rest && init + [last] == records;
    }
  }

  // The lines determine the data.
  lemma {:induction false} SplitBack<T>(data: seq<T>, end: T)
    ensures var lines := Split(data, end); var l := |lines| - 1;
            Plain(lines, end) && data == Join(lines[..l], end) + lines[l]
  {
    if data != [] {
      var init, last := data[..|data| - 1], data[|data| - 1];
      SplitBack(init, end);
      var before, lines := Split(init, end), Split(data, end);
      assert data == init + [last];
      if last == end {
        assert lines[..|lines| - 1] == before && before[..|before| - 1] + [before[|before| - 1]] == before;
      } else {
        assert lines[..|lines| - 1] == before[..|before| - 1];
      }
    }
  }

  lemma {:induction false} JoinAppend<T>(a: seq<seq<T>>, b: seq<seq<T>>, end: T)
    ensures Join(a + b, end) == Join(a, end) + Join(b, end)
    decreases |b|
  {
    if b == [] {
      assert a + b == a;
    } else {
      var init := b[..|b| - 1];
      JoinAppend(a, init, end);
      assert (a + b)[..|a + b| - 1] == a + init;
      Associative(Join(a, end), Join(init, end) + b[|b| - 1], [end]);
      Associative(Join(a, end), Join(init, end), b[|b| - 1]);
    }
  }

  lemma JoinOne<T>(record: seq<T>, end: T)
    ensures Join([record], end) == record + [end]
  {
    assert [record][..0] == [] && [] + record + [end] == record + [end];
  }
}
