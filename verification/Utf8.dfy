// UTF-8 as Node writes and reads it: a malformed sequence is read as one U+FFFD per maximal subpart
// of a character, the practice of section 3.9 of the Unicode Standard.
module Utf8 {
  import opened Wrappers
  import opened Sequences

  const REPLACEMENT: char := '\U{FFFD}'

  predicate IsScalar(n: int) {
    0 <= n < 0xD800 || 0xE000 <= n < 0x11_0000
  }

  // ---------- Encoder ----------

  function EncodeChar(c: char): seq<Byte> {
    var n := c as int;
    if n < 0x80 then [n]
    else if n < 0x800 then [0xC0 + n / 0x40, 0x80 + n % 0x40]
    else if n < 0x1_0000 then [0xE0 + n / 0x1000, 0x80 + n / 0x40 % 0x40, 0x80 + n % 0x40]
    else [0xF0 + n / 0x4_0000, 0x80 + n / 0x1000 % 0x40, 0x80 + n / 0x40 % 0x40, 0x80 + n % 0x40]
  }

  function Encode(s: string): seq<Byte> {
    if s == "" then [] else Encode(s[..|s| - 1]) + EncodeChar(s[|s| - 1])
  }

  // ---------- Decoder ----------

  // How many completions there are once the next byte is known.
  function Width(missing: nat): nat {
    if missing == 1 then 1 else if missing == 2 then 0x40 else 0x1000
  }

  // Idle, or `missing` more bytes are expected after a lead byte; the next one lies in low..high.
  datatype Decoder = Idle | Expecting(codePoint: nat, missing: nat, low: Byte, high: Byte) {
    // Every completion is a scalar value that needs more than one byte.
    ghost predicate Valid() {
      Expecting? ==>
        && 1 <= missing <= 3 && 0x80 <= low <= high < 0xC0
        && var width := Width(missing);
           var first := (codePoint * 0x40 + (low - 0x80)) * width;
           var last := (codePoint * 0x40 + (high - 0x80)) * width + width - 1;
           0x80 <= first && (last < 0xD800 || (0xE000 <= first && last < 0x11_0000))
    }
  }

  // A byte that starts a character.
  function Lead(b: Byte): (r: (Decoder, string))
    ensures r.0.Valid()
  {
    if b < 0x80 then (Idle, [b as char])
    else if b < 0xC2 || b > 0xF4 then (Idle, [REPLACEMENT])
    else if b < 0xE0 then (Expecting(b - 0xC0, 1, 0x80, 0xBF), "")
    else if b == 0xE0 then (Expecting(0, 2, 0xA0, 0xBF), "")
    else if b == 0xED then (Expecting(0xD, 2, 0x80, 0x9F), "")
    else if b < 0xF0 then (Expecting(b - 0xE0, 2, 0x80, 0xBF), "")
    else if b == 0xF0 then (Expecting(0, 3, 0x90, 0xBF), "")
    else if b == 0xF4 then (Expecting(4, 3, 0x80, 0x8F), "")
    else (Expecting(b - 0xF0, 3, 0x80, 0xBF), "")
  }

  function Step(d: Decoder, b: Byte): (r: (Decoder, string))
    requires d.Valid()
    ensures r.0.Valid()
  {
    if d.Idle? then Lead(b)
    else if d.low <= b <= d.high then
      var codePoint := d.codePoint * 0x40 + (b - 0x80);
      if d.missing == 1 then (Idle, [codePoint as char]) else (Expecting(codePoint, d.missing - 1, 0x80, 0xBF), "")
    else
      var (d', out) := Lead(b);
      (d', [REPLACEMENT] + out)
  }

  // The decoder after the bytes, and what it has put out.
  function Run(d: Decoder, bytes: seq<Byte>): (r: (Decoder, string))
    requires d.Valid()
    ensures r.0.Valid()
  {
    if bytes == [] then (d, "")
    else
      var (d1, out1) := Run(d, bytes[..|bytes| - 1]);
      var (d2, out2) := Step(d1, bytes[|bytes| - 1]);
      (d2, out1 + out2)
  }

  function Flush(d: Decoder): string {
    if d.Idle? then "" else [REPLACEMENT]
  }

  function Decode(bytes: seq<Byte>): string {
    var (d, out) := Run(Idle, bytes);
    out + Flush(d)
  }

  // ---------- Round trip ----------

  lemma RunNext(d: Decoder, bytes: seq<Byte>, b: Byte, d1: Decoder, out: string)
    requires d.Valid() && Run(d, bytes) == (d1, out)
    ensures Run(d, bytes + [b]) == (Step(d1, b).0, out + Step(d1, b).1)
  {
    assert (bytes + [b])[..|bytes|] == bytes;
  }

  lemma {:induction false} RunAppend(d: Decoder, a: seq<Byte>, b: seq<Byte>, d1: Decoder, out1: string, d2: Decoder,
                                     out2: string)
    requires d.Valid() && Run(d, a) == (d1, out1) && Run(d1, b) == (d2, out2)
    ensures Run(d, a + b) == (d2, out1 + out2)
  {
    if b == [] {
      assert a + b == a && out1 + "" == out1;
    } else {
      var init, last := b[..|b| - 1], b[|b| - 1];
      var (d3, out3) := Run(d1, init);
      RunAppend(d, a, init, d1, out1, d3, out3);
      RunNext(d, a + init, last, d3, out1 + out3);
      assert a + b == a + init + [last];
      Associative(out1, out3, Step(d3, last).1);
    }
  }

  // A lead byte ends whatever is unfinished.
  lemma RunLead(d: Decoder, b: Byte)
    requires d.Valid() && !(0x80 <= b < 0xC0)
    ensures Run(d, [b]) == (Lead(b).0, Flush(d) + Lead(b).1)
  {
    RunNext(d, [], b, d, "");
    assert [] + [b] == [b];
    var (d1, out) := Lead(b);
    assert "" + Step(d, b).1 == Flush(d) + out;
  }

  lemma AppendNothing(out: string)
    ensures out + "" == out
  {
  }

  lemma RunSilent(d: Decoder, bytes: seq<Byte>, b: Byte, d1: Decoder, d2: Decoder, out: string)
    requires d.Valid() && Run(d, bytes) == (d1, out) && d1.Valid() && Step(d1, b) == (d2, "")
    ensures Run(d, bytes + [b]) == (d2, out)
  {
    AppendNothing(out);
    RunNext(d, bytes, b, d1, out);
  }

  // A character of two bytes, step by step.
  lemma StepsOfTwo(n: nat, b1: Byte)
    requires 0x80 <= n < 0x800 && b1 == 0x80 + n % 0x40
    ensures var lead := Lead(0xC0 + n / 0x40); lead.1 == "" && Step(lead.0, b1) == (Idle, [n as char])
  {
  }

  lemma StepsOfThree(n: nat, b1: Byte, b2: Byte)
    requires 0x800 <= n < 0x1_0000 && IsScalar(n) && b1 == 0x80 + n / 0x40 % 0x40 && b2 == 0x80 + n % 0x40
    ensures var lead, next := Lead(0xE0 + n / 0x1000), Expecting(n / 0x40, 1, 0x80, 0xBF);
            lead.1 == "" && next.Valid() && Step(lead.0, b1) == (next, "") && Step(next, b2) == (Idle, [n as char])
  {
    assert n / 0x1000 * 0x40 + n / 0x40 % 0x40 == n / 0x40;
  }

  lemma StepsOfFour(n: nat, b1: Byte, b2: Byte, b3: Byte)
    requires 0x1_0000 <= n < 0x11_0000
    requires b1 == 0x80 + n / 0x1000 % 0x40 && b2 == 0x80 + n / 0x40 % 0x40 && b3 == 0x80 + n % 0x40
    ensures var lead, next, last :=
            Lead(0xF0 + n / 0x4_0000), Expecting(n / 0x1000, 2, 0x80, 0xBF), Expecting(n / 0x40, 1, 0x80, 0xBF);
            && lead.1 == "" && next.Valid() && Step(lead.0, b1) == (next, "")
            && last.Valid() && Step(next, b2) == (last, "") && Step(last, b3) == (Idle, [n as char])
  {
    assert n / 0x4_0000 * 0x40 + n / 0x1000 % 0x40 == n / 0x1000;
    assert n / 0x1000 * 0x40 + n / 0x40 % 0x40 == n / 0x40;
  }

  lemma RunTwo(d: Decoder, c: char)
    requires d.Valid() && 0x80 <= c as int < 0x800
    ensures Run(d, EncodeChar(c)) == (Idle, Flush(d) + [c])
  {
    var e := EncodeChar(c);
    StepsOfTwo(c as int, e[1]);
    RunLead(d, e[0]);
    assert Flush(d) + "" == Flush(d);
    RunNext(d, [e[0]], e[1], Lead(e[0]).0, Flush(d));
    assert [e[0]] + [e[1]] == e;
  }

  // The first two bytes of a longer character.
  lemma RunBegin(d: Decoder, b0: Byte, b1: Byte, next: Decoder)
    requires d.Valid() && !(0x80 <= b0 < 0xC0) && Lead(b0).1 == "" && Step(Lead(b0).0, b1) == (next, "")
    ensures Run(d, [b0, b1]) == (next, Flush(d))
  {
    RunLead(d, b0);
    assert Flush(d) + "" == Flush(d);
    RunSilent(d, [b0], b1, Lead(b0).0, next, Flush(d));
    assert [b0] + [b1] == [b0, b1];
  }

  lemma RunThree(d: Decoder, c: char)
    requires d.Valid() && 0x800 <= c as int < 0x1_0000
    ensures Run(d, EncodeChar(c)) == (Idle, Flush(d) + [c])
  {
    var e, next := EncodeChar(c), Expecting(c as int / 0x40, 1, 0x80, 0xBF);
    StepsOfThree(c as int, e[1], e[2]);
    RunBegin(d, e[0], e[1], next);
    RunNext(d, [e[0], e[1]], e[2], next, Flush(d));
    assert [e[0], e[1]] + [e[2]] == e;
  }

  lemma RunFour(d: Decoder, c: char)
    requires d.Valid() && 0x1_0000 <= c as int
    ensures Run(d, EncodeChar(c)) == (Idle, Flush(d) + [c])
  {
    var e, n := EncodeChar(c), c as int;
    var next, last := Expecting(n / 0x1000, 2, 0x80, 0xBF), Expecting(n / 0x40, 1, 0x80, 0xBF);
    StepsOfFour(n, e[1], e[2], e[3]);
    RunBegin(d, e[0], e[1], next);
    RunSilent(d, [e[0], e[1]], e[2], next, last, Flush(d));
    RunNext(d, [e[0], e[1]] + [e[2]], e[3], last, Flush(d));
    assert [e[0], e[1]] + [e[2]] + [e[3]] == e;
  }

  // From any state, an encoded character ends what is unfinished and is read back.
  lemma RunChar(d: Decoder, c: char)
    requires d.Valid()
    ensures Run(d, EncodeChar(c)) == (Idle, Flush(d) + [c])
  {
    if c as int < 0x80 {
      RunLead(d, c as int);
    } else if c as int < 0x800 {
      RunTwo(d, c);
    } else if c as int < 0x1_0000 {
      RunThree(d, c);
    } else {
      RunFour(d, c);
    }
  }

  lemma RunFirst(d: Decoder, c: char)
    requires d.Valid()
    ensures Run(d, Encode([c])) == (Idle, Flush(d) + [c])
  {
    RunChar(d, c);
    assert [] + EncodeChar(c) == EncodeChar(c);
  }

  lemma RunMore(d: Decoder, bytes: seq<Byte>, out: string, c: char)
    requires d.Valid() && Run(d, bytes) == (Idle, out)
    ensures Run(d, bytes + EncodeChar(c)) == (Idle, out + [c])
  {
    RunChar(Idle, c);
    assert Flush(Idle) + [c] == [c];
    RunAppend(d, bytes, EncodeChar(c), Idle, out, Idle, [c]);
  }

  lemma {:induction false} RunEncoded(d: Decoder, s: string)
    requires d.Valid() && s != ""
    ensures Run(d, Encode(s)) == (Idle, Flush(d) + s)
  {
    var init, last := s[..|s| - 1], s[|s| - 1];
    assert s == init + [last];
    if init == "" {
      RunFirst(d, last);
    } else {
      RunEncoded(d, init);
      RunMore(d, Encode(init), Flush(d) + init, last);
      Associative(Flush(d), init, [last]);
    }
  }

  // Encoded text is read back whatever bytes stand before and after it.
  lemma DecodeAround(before: seq<Byte>, s: string, after: seq<Byte>)
    requires s != ""
    ensures Decode(before + Encode(s) + after) == Decode(before) + s + Decode(after)
  {
    var (d, out) := Run(Idle, before);
    var (d2, out2) := Run(Idle, after);
    RunEncoded(d, s);
    RunAppend(Idle, before, Encode(s), d, out, Idle, Flush(d) + s);
    RunAppend(Idle, before + Encode(s), after, Idle, out + (Flush(d) + s), d2, out2);
    Associative(out, Flush(d), s);
    Associative(Decode(before) + s, out2, Flush(d2));
  }

  lemma IdleIsSilent(s: string)
    ensures Flush(Idle) + s == s == s + Flush(Idle)
  {
  }

  lemma RoundTrip(s: string)
    ensures Decode(Encode(s)) == s
  {
    if s != "" {
      RunEncoded(Idle, s);
      IdleIsSilent(s);
    }
  }

  // ---------- Which bytes are text ----------

  // The unfinished character is the beginning of the shortest encoding of some scalar value.
  ghost predicate Shortest(d: Decoder) {
    match d
    case Idle => true
    case Expecting(codePoint, missing, low, high) =>
      && 0x80 <= low <= high < 0xC0
      && (|| (missing == 1 && 2 <= codePoint < 0x4400)
          || (missing == 2 && codePoint < 0x110 && (codePoint < 0x10 ==> codePoint * 0x40 + low >= 0xA0))
          || (missing == 3 && codePoint <= 4
              && codePoint * 0x40 + low >= 0x90 && codePoint * 0x40 + high < 0x190))
  }

  // The bytes of the unfinished character.
  ghost function Pending(d: Decoder): seq<Byte>
    requires Shortest(d)
  {
    if d.Idle? then []
    else
      var n := d.codePoint;
      if d.missing == 1 then
        if n < 0x20 then [0xC0 + n]
        else if n < 0x400 then [0xE0 + n / 0x40, 0x80 + n % 0x40]
        else [0xF0 + n / 0x1000, 0x80 + n / 0x40 % 0x40, 0x80 + n % 0x40]
      else if d.missing == 2 then
        if n < 0x10 then [0xE0 + n] else [0xF0 + n / 0x40, 0x80 + n % 0x40]
      else [0xF0 + n]
  }

  lemma LeadPending(b: Byte)
    requires REPLACEMENT !in Lead(b).1
    ensures Shortest(Lead(b).0) && [b] == Encode(Lead(b).1) + Pending(Lead(b).0)
  {
    if b < 0x80 { assert Encode([b as char]) == [] + [b]; }
  }

  lemma NextPending(d: Decoder, b: Byte)
    requires d.Valid() && Shortest(d) && d.Expecting? && d.missing > 1 && d.low <= b <= d.high
    ensures Shortest(Step(d, b).0) && Pending(Step(d, b).0) == Pending(d) + [b]
  {
    var n := d.codePoint * 0x40 + (b - 0x80);
    assert n / 0x40 == d.codePoint && n % 0x40 == b - 0x80;
    assert n / 0x1000 == d.codePoint / 0x40;
  }

  lemma LastPending(d: Decoder, b: Byte)
    requires d.Valid() && Shortest(d) && d.Expecting? && d.missing == 1 && d.low <= b <= d.high
    ensures var c := (d.codePoint * 0x40 + (b - 0x80)) as char;
            Step(d, b) == (Idle, [c]) && EncodeChar(c) == Pending(d) + [b]
  {
    var n := d.codePoint * 0x40 + (b - 0x80);
    assert n / 0x40 == d.codePoint && n % 0x40 == b - 0x80;
    assert n / 0x1000 == d.codePoint / 0x40 && n / 0x4_0000 == d.codePoint / 0x1000;
  }

  lemma EncodeOne(c: char)
    ensures Encode([c]) == EncodeChar(c)
  {
    assert [] + EncodeChar(c) == EncodeChar(c);
  }

  lemma StepPending(d: Decoder, b: Byte)
    requires d.Valid() && Shortest(d) && REPLACEMENT !in Step(d, b).1
    ensures Shortest(Step(d, b).0) && |Step(d, b).1| <= 1
    ensures Pending(d) + [b] == Encode(Step(d, b).1) + Pending(Step(d, b).0)
  {
    if d.Idle? {
      LeadPending(b);
    } else if d.low <= b <= d.high {
      if d.missing == 1 {
        var c := (d.codePoint * 0x40 + (b - 0x80)) as char;
        LastPending(d, b);
        EncodeOne(c);
        assert Encode([c]) + [] == Encode([c]);
      } else {
        NextPending(d, b);
      }
    }
  }

  lemma EncodeNext(s: string, c: char)
    ensures Encode(s + [c]) == Encode(s) + EncodeChar(c)
  {
    assert (s + [c])[..|s|] == s;
  }

  lemma PendingNext(out: string, pending: seq<Byte>, b: Byte, more: string, pending': seq<Byte>)
    requires |more| <= 1 && pending + [b] == Encode(more) + pending'
    ensures Encode(out) + pending + [b] == Encode(out + more) + pending'
  {
    Associative(Encode(out), pending, [b]);
    if more == "" {
      assert out + more == out && [] + pending' == pending';
    } else {
      EncodeNext(out, more[0]);
      EncodeOne(more[0]);
      assert more == [more[0]];
      Associative(Encode(out), EncodeChar(more[0]), pending');
    }
  }

  lemma {:induction false} RunPending(bytes: seq<Byte>)
    requires REPLACEMENT !in Run(Idle, bytes).1
    ensures Shortest(Run(Idle, bytes).0) && bytes == Encode(Run(Idle, bytes).1) + Pending(Run(Idle, bytes).0)
  {
    if bytes != [] {
      var init, b := bytes[..|bytes| - 1], bytes[|bytes| - 1];
      var (d, out) := Run(Idle, init);
      var (d', more) := Step(d, b);
      RunNext(Idle, init, b, d, out);
      assert bytes == init + [b];
      assert Run(Idle, bytes) == (d', out + more);
      RunPending(init);
      StepPending(d, b);
      PendingNext(out, Pending(d), b, more, Pending(d'));
    }
  }

  // Bytes are read without a replacement exactly if they are the encoding of a text without one,
  // and then they are the encoding of what is read.
  lemma DecodedExactly(bytes: seq<Byte>)
    ensures '\U{FFFD}' !in Decode(bytes) <==> exists s :: '\U{FFFD}' !in s && bytes == Encode(s)
    ensures '\U{FFFD}' !in Decode(bytes) ==> bytes == Encode(Decode(bytes))
  {
    if '\U{FFFD}' !in Decode(bytes) {
      var (d, out) := Run(Idle, bytes);
      assert Decode(bytes) == out + Flush(d);
      assert d.Idle? && out + "" == out;
      RunPending(bytes);
      assert Encode(out) + [] == Encode(out);
    }
    if s :| '\U{FFFD}' !in s && bytes == Encode(s) {
      RoundTrip(s);
    }
  }

  // ---------- How many replacements ----------

  // What begins a longer character puts out nothing yet.
  ghost predicate Silent(bytes: seq<Byte>) {
    Run(Idle, bytes).0.Expecting? && Run(Idle, bytes).1 == ""
  }

  lemma SilentLead(b: Byte)
    requires 0xC2 <= b <= 0xF4
    ensures Silent([b])
  {
    RunLead(Idle, b);
  }

  lemma BegunThree(c: char)
    requires 0x800 <= c as int < 0x1_0000
    ensures Silent(EncodeChar(c)[..1]) && Silent(EncodeChar(c)[..2])
  {
    var e := EncodeChar(c);
    StepsOfThree(c as int, e[1], e[2]);
    SilentLead(e[0]);
    RunBegin(Idle, e[0], e[1], Expecting(c as int / 0x40, 1, 0x80, 0xBF));
    assert e[..1] == [e[0]] && e[..2] == [e[0], e[1]];
  }

  lemma BegunFour(c: char)
    requires 0x1_0000 <= c as int
    ensures Silent(EncodeChar(c)[..1]) && Silent(EncodeChar(c)[..2]) && Silent(EncodeChar(c)[..3])
  {
    var e, n := EncodeChar(c), c as int;
    var next, last := Expecting(n / 0x1000, 2, 0x80, 0xBF), Expecting(n / 0x40, 1, 0x80, 0xBF);
    StepsOfFour(n, e[1], e[2], e[3]);
    SilentLead(e[0]);
    RunBegin(Idle, e[0], e[1], next);
    RunSilent(Idle, [e[0], e[1]], e[2], next, last, "");
    assert e[..1] == [e[0]] && e[..2] == [e[0], e[1]] && e[..3] == [e[0], e[1]] + [e[2]];
  }

  lemma BegunCharacter(c: char, k: nat)
    requires 0 < k < |EncodeChar(c)|
    ensures Silent(EncodeChar(c)[..k])
  {
    if c as int < 0x800 {
      SilentLead(EncodeChar(c)[0]);
      assert EncodeChar(c)[..1] == [EncodeChar(c)[0]];
    } else if c as int < 0x1_0000 {
      BegunThree(c);
    } else {
      BegunFour(c);
    }
  }

  // A character that is cut anywhere is read as a single replacement.
  lemma CutCharacter(c: char, k: nat)
    requires 0 < k < |EncodeChar(c)|
    ensures Decode(EncodeChar(c)[..k]) == ['\U{FFFD}']
  {
    BegunCharacter(c, k);
  }

  function Replacements(n: nat): string {
    seq(n, _ => '\U{FFFD}')
  }

  lemma {:induction false} StrayRun(bytes: seq<Byte>)
    requires forall i :: 0 <= i < |bytes| ==> 0x80 <= bytes[i] < 0xC2 || 0xF4 < bytes[i]
    ensures Run(Idle, bytes) == (Idle, Replacements(|bytes|))
  {
    if bytes != [] {
      StrayRun(bytes[..|bytes| - 1]);
      assert Replacements(|bytes|) == Replacements(|bytes| - 1) + ['\U{FFFD}'];
    }
  }

  // Bytes with which no character begins are replaced one by one.
  lemma StrayBytes(bytes: seq<Byte>)
    requires forall i :: 0 <= i < |bytes| ==> 0x80 <= bytes[i] < 0xC2 || 0xF4 < bytes[i]
    ensures Decode(bytes) == Replacements(|bytes|)
  {
    StrayRun(bytes);
  }

  // The euro sign, and the euro sign without its last byte.
  lemma EuroSign()
    ensures Encode(['\U{20AC}']) == [0xE2, 0x82, 0xAC] && Decode([0xE2, 0x82]) == ['\U{FFFD}']
  {
    EncodeOne('\U{20AC}');
    CutCharacter('\U{20AC}', 2);
    assert EncodeChar('\U{20AC}')[..2] == [0xE2, 0x82];
  }

  // Something is read of any bytes.
  lemma DecodedSomething(bytes: seq<Byte>)
    requires bytes != []
    ensures Decode(bytes) != ""
  {
    var init, b := bytes[..|bytes| - 1], bytes[|bytes| - 1];
    var (d, out) := Run(Idle, init);
    RunNext(Idle, init, b, d, out);
    assert bytes == init + [b];
    assert Step(d, b).1 != "" || Step(d, b).0.Expecting?;
  }

  // ---------- NUL ----------

  lemma StepNul(d: Decoder, b: Byte)
    requires d.Valid() && b != 0
    ensures '\0' !in Step(d, b).1
  {
  }

  // Decoding yields NUL for the byte 0 only.
  lemma {:induction false} RunNul(d: Decoder, bytes: seq<Byte>)
    requires d.Valid() && 0 !in bytes
    ensures '\0' !in Run(d, bytes).1
  {
    if bytes != [] {
      var init, last := bytes[..|bytes| - 1], bytes[|bytes| - 1];
      RunNul(d, init);
      StepNul(Run(d, init).0, last);
    }
  }

  lemma DecodeNul(bytes: seq<Byte>)
    requires 0 !in bytes
    ensures '\0' !in Decode(bytes)
  {
    RunNul(Idle, bytes);
  }

  lemma {:induction false} EncodeNul(s: string)
    requires '\0' !in s
    ensures 0 !in Encode(s)
  {
    if s != "" { EncodeNul(s[..|s| - 1]); }
  }
}
