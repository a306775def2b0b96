/**
 The pf.conf format line by line: which lines are skipped, which are rejected, what each accepted
 line adds, and what is written, with every prefix spelled out.
 */
module PfConfigLines {
  import opened Prelude
  import opened PfConfig

  // --- Skipped lines ---

  // The position of the first character that is not white space.
  lemma {:induction false} FirstNonSpace(line: string) returns (n: nat)
    ensures n <= |line| && (forall i :: 0 <= i < n ==> IsSpace(line[i]))
    ensures n < |line| ==> !IsSpace(line[n])
    ensures LStripSpace(line) == line[n..]
  {
    n := 0;
    if line != [] && IsSpace(line[0]) {
      var m := FirstNonSpace(line[1..]);
      n := m + 1;
      assert line[1..][m..] == line[n..];
      assert forall i :: 0 < i < n ==> line[i] == line[1..][i - 1];
    }
  }

  /** A line is skipped if and only if it is all white space, or its first other character is the
      comment sign. */
  lemma IgnoredIff(line: string)
    ensures IsIgnored(line) <==>
      || (forall i :: 0 <= i < |line| ==> IsSpace(line[i]))
      || (exists i :: 0 <= i < |line| && line[i] == '#' && forall j :: 0 <= j < i ==> IsSpace(line[j]))
  {
    var n := FirstNonSpace(line);
    RStripSpaceFacts(line[n..]);
    if n < |line| {
      assert Strip(line)[0] == line[n];
      if exists i :: 0 <= i < |line| && line[i] == '#' && forall j :: 0 <= j < i ==> IsSpace(line[j]) {
        var i :| 0 <= i < |line| && line[i] == '#' && forall j :: 0 <= j < i ==> IsSpace(line[j]);
        assert !IsSpace('#');
        assert i == n;
      }
    }
  }

  // --- Accepted and rejected lines ---

  predicate Known(line: string) {
    || "scrub-anchor" <= line || "nat-anchor" <= line || "rdr-anchor" <= line
    || "dummynet-anchor" <= line || "anchor" <= line || "load anchor" <= line
  }

  lemma KnownIff(line: string)
    ensures Known(line) <==> exists field: Field :: Prefix(field) <= line
  {
    assert Prefix(Scrub) == "scrub-anchor" && Prefix(Nat) == "nat-anchor" && Prefix(Rdr) == "rdr-anchor";
    assert Prefix(Dummynet) == "dummynet-anchor" && Prefix(Anchor) == "anchor" && Prefix(Load) == "load anchor";
  }

  lemma UnknownIff(line: string)
    ensures Parse(line).Unknown? <==> !IsIgnored(line) && !Known(line)
  {
    KnownIff(line);
    if exists field: Field :: Prefix(field) <= line {
      var field :| Prefix(field) <= line;
      if !IsIgnored(line) {
        ParseFinds(line, field);
      }
    }
  }

  /** Reading succeeds if and only if every line is skipped or begins with one of the six keys.
      Otherwise it stops at the first other line and names it, with what the lines before it add. */
  lemma {:induction false} InjectOutcome(lists: Lists, lines: seq<string>) returns (n: nat)
    ensures n <= |lines| && forall i :: 0 <= i < n ==> IsIgnored(lines[i]) || Known(lines[i])
    ensures n == |lines| ==> Inject(lists, lines).Done?
    ensures n < |lines| ==>
      && !IsIgnored(lines[n]) && !Known(lines[n])
      && Inject(lists, lines) == UnknownKey(Inject(lists, lines[..n]).lists, lines[n])
    decreases |lines|
  {
    n := 0;
    if lines != [] {
      UnknownIff(lines[0]);
      if !Parse(lines[0]).Unknown? {
        var line := Parse(lines[0]);
        var m := InjectOutcome(if line.Entry? then lists.Add(line.field, line.value) else lists, lines[1..]);
        n := m + 1;
        assert lines[..n][1..] == lines[1..][..m];
        assert forall i :: 0 < i < n ==> lines[i] == lines[1..][i - 1];
      }
    }
  }

  // The value of the line if it is the field's.
  function ValueIn(field: Field, line: string): seq<string> {
    if !IsIgnored(line) && Prefix(field) <= line then [ValueOf(line, field)] else []
  }

  // The values that the lines beginning with the field's key give, in order.
  function Values(field: Field, lines: seq<string>): seq<string> {
    if lines == [] then [] else ValueIn(field, lines[0]) + Values(field, lines[1..])
  }

  /** What is read is appended, field by field and in the order of the lines; skipped lines add
      nothing. */
  lemma {:induction false} EachFieldCollects(lists: Lists, lines: seq<string>, field: Field)
    requires Inject(lists, lines).Done?
    ensures Inject(lists, lines).lists.Get(field) == lists.Get(field) + Values(field, lines)
    decreases |lines|
  {
    if lines == [] {
      assert lists.Get(field) + [] == lists.Get(field);
    } else {
      var next := AfterLine(lists, lines[0], field);
      EachFieldCollects(next, lines[1..], field);
      Assoc(lists.Get(field), ValueIn(field, lines[0]), Values(field, lines[1..]));
    }
  }

  lemma AfterLine(lists: Lists, line: string, field: Field) returns (next: Lists)
    requires !Parse(line).Unknown?
    ensures next == if Parse(line).Entry? then lists.Add(Parse(line).field, Parse(line).value) else lists
    ensures next.Get(field) == lists.Get(field) + ValueIn(field, line)
  {
    next := if Parse(line).Entry? then lists.Add(Parse(line).field, Parse(line).value) else lists;
    if !IsIgnored(line) && Prefix(field) <= line {
      ParseFinds(line, field);
    } else {
      assert lists.Get(field) + ValueIn(field, line) == lists.Get(field);
    }
  }

  /** The value of a line is what follows its key, from the first character that does not occur in
      the key, trimmed of white space. */
  lemma ValueAfterKey(field: Field, rest: string) returns (n: nat)
    ensures n <= |rest| && (forall i :: 0 <= i < n ==> rest[i] in Prefix(field))
    ensures n < |rest| ==> rest[n] !in Prefix(field)
    ensures Parse(Prefix(field) + rest) == Entry(field, Strip(rest[n..]))
  {
    var line := Prefix(field) + rest;
    n := FirstOutside(rest, Prefix(field));
    LStripPast(Prefix(field), rest, Prefix(field));
    assert line[0] == Prefix(field)[0] && line[0] != '#' && !IsSpace(line[0]);
    StripFacts(line);
    ParseFinds(line, field);
  }

  lemma {:induction false} FirstOutside(s: string, chars: string) returns (n: nat)
    ensures n <= |s| && (forall i :: 0 <= i < n ==> s[i] in chars)
    ensures n < |s| ==> s[n] !in chars
    ensures LStrip(s, chars) == s[n..]
  {
    n := 0;
    if s != [] && s[0] in chars {
      var m := FirstOutside(s[1..], chars);
      n := m + 1;
      assert s[1..][m..] == s[n..];
      assert forall i :: 0 < i < n ==> s[i] == s[1..][i - 1];
    }
  }

  // --- Written lines ---

  // One line for each value, after the same start.
  function Lines(start: string, values: seq<string>): string {
    if values == [] then "" else start + values[0] + "\n" + Lines(start, values[1..])
  }

  lemma {:induction false} PrintedLines(field: Field, values: seq<string>)
    ensures PrintValues(field, values) == Lines(Prefix(field) + " ", values)
  {
    if values != [] {
      PrintedLines(field, values[1..]);
    }
  }

  /** What is written: one line for each value, its key, one space and the value, key by key in the
      order the firewall requires. */
  lemma PrintedText(lists: Lists)
    ensures Print(lists)
         == Lines("scrub-anchor ", lists.scrub) + (Lines("nat-anchor ", lists.nat_) + (Lines("rdr-anchor ", lists.rdr)
          + (Lines("dummynet-anchor ", lists.dummynet)
              + (Lines("anchor ", lists.anchor) + (Lines("load anchor ", lists.load) + "")))))
  {
    PrintOrder(lists);
    PrintedLines(Scrub, lists.scrub);
    PrintedLines(Nat, lists.nat_);
    PrintedLines(Rdr, lists.rdr);
    PrintedLines(Dummynet, lists.dummynet);
    PrintedLines(Anchor, lists.anchor);
    PrintedLines(Load, lists.load);
    KeysWithSpace();
  }

  lemma KeysWithSpace()
    ensures Prefix(Scrub) + " " == "scrub-anchor " && Prefix(Nat) + " " == "nat-anchor "
    ensures Prefix(Rdr) + " " == "rdr-anchor " && Prefix(Dummynet) + " " == "dummynet-anchor "
    ensures Prefix(Anchor) + " " == "anchor " && Prefix(Load) + " " == "load anchor "
  {
  }
}
