/**
 The pf.conf reader and printer (PFConfig in proxy-benchmarks/proxy_benchmarks/networking.py).
 */
module PfConfig {
  import opened Prelude

  datatype Field = Scrub | Nat | Rdr | Dummynet | Anchor | Load

  function Prefix(field: Field): string {
    match field
    case Scrub => "scrub-anchor"
    case Nat => "nat-anchor"
    case Rdr => "rdr-anchor"
    case Dummynet => "dummynet-anchor"
    case Anchor => "anchor"
    case Load => "load anchor"
  }

  // The order pfctl requires, and the order of the searches: longest prefix first.
  const PRINT_ORDER: seq<Field> := [Scrub, Nat, Rdr, Dummynet, Anchor, Load]
  const SEARCH_ORDER: seq<Field> := [Dummynet, Scrub, Load, Nat, Rdr, Anchor]

  datatype Lists = Lists(scrub: seq<string>, nat_: seq<string>, rdr: seq<string>,
                         dummynet: seq<string>, anchor: seq<string>, load: seq<string>)
  {
    function Get(field: Field): seq<string> {
      match field
      case Scrub => scrub
      case Nat => nat_
      case Rdr => rdr
      case Dummynet => dummynet
      case Anchor => anchor
      case Load => load
    }

    function Put(field: Field, values: seq<string>): Lists {
      match field
      case Scrub => this.(scrub := values)
      case Nat => this.(nat_ := values)
      case Rdr => this.(rdr := values)
      case Dummynet => this.(dummynet := values)
      case Anchor => this.(anchor := values)
      case Load => this.(load := values)
    }

    function Add(field: Field, value: string): Lists {
      Put(field, Get(field) + [value])
    }
  }

  // --- Python string operations ---

  // The characters str.strip() removes.
  predicate IsSpace(c: char) {
    var n := c as int;
    || 0x09 <= n <= 0x0D || 0x1C <= n <= 0x20 || n == 0x85 || n == 0xA0 || n == 0x1680
    || 0x2000 <= n <= 0x200A || n == 0x2028 || n == 0x2029 || n == 0x202F || n == 0x205F || n == 0x3000
  }

  function LStripSpace(s: string): string {
    if s != [] && IsSpace(s[0]) then LStripSpace(s[1..]) else s
  }

  function RStripSpace(s: string): string {
    if s != [] && IsSpace(s[|s| - 1]) then RStripSpace(s[..|s| - 1]) else s
  }

  function Strip(s: string): string {
    RStripSpace(LStripSpace(s))
  }

  // str.lstrip(chars): chars is a set of characters, not a prefix.
  function LStrip(s: string, chars: string): string {
    if s != [] && s[0] in chars then LStrip(s[1..], chars) else s
  }

  // str.split("\n").
  function Split(s: string): (lines: seq<string>)
    ensures lines != []
  {
    if s == [] then [""]
    else if s[0] == '\n' then [""] + Split(s[1..])
    else var rest := Split(s[1..]); [[s[0]] + rest[0]] + rest[1..]
  }

  // --- Reading and printing ---

  datatype Line = Ignored | Entry(field: Field, value: string) | Unknown

  predicate IsIgnored(line: string) {
    Strip(line) == [] || Strip(line)[0] == '#'
  }

  function ValueOf(line: string, field: Field): string {
    Strip(LStrip(line, Prefix(field)))
  }

  // What one line adds. At most one prefix matches a line, so the order of search does not matter.
  function Parse(line: string): Line {
    if IsIgnored(line) then Ignored
    else if Prefix(Scrub) <= line then Entry(Scrub, ValueOf(line, Scrub))
    else if Prefix(Nat) <= line then Entry(Nat, ValueOf(line, Nat))
    else if Prefix(Rdr) <= line then Entry(Rdr, ValueOf(line, Rdr))
    else if Prefix(Dummynet) <= line then Entry(Dummynet, ValueOf(line, Dummynet))
    else if Prefix(Anchor) <= line then Entry(Anchor, ValueOf(line, Anchor))
    else if Prefix(Load) <= line then Entry(Load, ValueOf(line, Load))
    else Unknown
  }

  lemma OnePrefixMatches(line: string, a: Field, b: Field)
    requires Prefix(a) <= line && Prefix(b) <= line
    ensures a == b
  {
    assert line[0] == Prefix(a)[0] == Prefix(b)[0];
  }

  lemma ParseFinds(line: string, field: Field)
    requires !IsIgnored(line) && Prefix(field) <= line
    ensures Parse(line) == Entry(field, ValueOf(line, field))
  {
    if Prefix(Scrub) <= line { OnePrefixMatches(line, field, Scrub); }
    if Prefix(Nat) <= line { OnePrefixMatches(line, field, Nat); }
    if Prefix(Rdr) <= line { OnePrefixMatches(line, field, Rdr); }
    if Prefix(Dummynet) <= line { OnePrefixMatches(line, field, Dummynet); }
    if Prefix(Anchor) <= line { OnePrefixMatches(line, field, Anchor); }
  }

  lemma ParseFindsNothing(line: string)
    requires forall j :: 0 <= j < |SEARCH_ORDER| ==> !(Prefix(SEARCH_ORDER[j]) <= line)
    ensures !Parse(line).Entry?
  {
    assert SEARCH_ORDER[0] == Dummynet && SEARCH_ORDER[1] == Scrub && SEARCH_ORDER[2] == Load;
    assert SEARCH_ORDER[3] == Nat && SEARCH_ORDER[4] == Rdr && SEARCH_ORDER[5] == Anchor;
  }

  lemma SearchedOnce(i: nat, j: nat)
    requires i < j < |SEARCH_ORDER|
    ensures SEARCH_ORDER[i] != SEARCH_ORDER[j]
  {
  }

  // Reading stops with the offending line at the first unknown key; what was read before stays.
  datatype Outcome = Done(lists: Lists) | UnknownKey(lists: Lists, line: string)

  function Inject(lists: Lists, lines: seq<string>): Outcome
    decreases |lines|
  {
    if lines == [] then Done(lists)
    else match Parse(lines[0])
      case Ignored => Inject(lists, lines[1..])
      case Entry(field, value) => Inject(lists.Add(field, value), lines[1..])
      case Unknown => UnknownKey(lists, lines[0])
  }

  function PrintValues(field: Field, values: seq<string>): string {
    if values == [] then "" else Prefix(field) + " " + values[0] + "\n" + PrintValues(field, values[1..])
  }

  function PrintFields(lists: Lists, fields: seq<Field>): string {
    if fields == [] then "" else PrintValues(fields[0], lists.Get(fields[0])) + PrintFields(lists, fields[1..])
  }

  function Print(lists: Lists): string {
    PrintFields(lists, PRINT_ORDER)
  }

  class PFConfig {
    var scrubAnchors: seq<string>
    var natAnchors: seq<string>
    var rdrAnchors: seq<string>
    var dummynetAnchors: seq<string>
    var anchors: seq<string>
    var loadAnchors: seq<string>

    function State(): Lists
      reads this
    {
      Lists(scrubAnchors, natAnchors, rdrAnchors, dummynetAnchors, anchors, loadAnchors)
    }

    constructor ()
      ensures State() == Lists([], [], [], [], [], [])
    {
      scrubAnchors, natAnchors, rdrAnchors, dummynetAnchors, anchors, loadAnchors := [], [], [], [], [], [];
    }

    method Append(field: Field, value: string)
      modifies this
      ensures State() == old(State()).Add(field, value)
    {
      match field {
        case Scrub => scrubAnchors := scrubAnchors + [value];
        case Nat => natAnchors := natAnchors + [value];
        case Rdr => rdrAnchors := rdrAnchors + [value];
        case Dummynet => dummynetAnchors := dummynetAnchors + [value];
        case Anchor => anchors := anchors + [value];
        case Load => loadAnchors := loadAnchors + [value];
      }
    }

    // The search over all prefixes for one line; it does not stop at a match.
    method InjectLine(line: string) returns (found: bool)
      requires !IsIgnored(line)
      modifies this
      ensures found <==> Parse(line).Entry?
      ensures State() == if found then old(State()).Add(Parse(line).field, Parse(line).value) else old(State())
    {
      found := false;
      ghost var hit: nat := 0;
      for i := 0 to |SEARCH_ORDER|
        invariant found ==> hit < i && Prefix(SEARCH_ORDER[hit]) <= line
        invariant State() == if found then old(State()).Add(SEARCH_ORDER[hit], ValueOf(line, SEARCH_ORDER[hit]))
            else old(State())
        invariant !found ==> forall j :: 0 <= j < i ==> !(Prefix(SEARCH_ORDER[j]) <= line)
      {
        var field := SEARCH_ORDER[i];
        if Prefix(field) <= line {
          assert !found by {
            if found {
              OnePrefixMatches(line, field, SEARCH_ORDER[hit]);
              SearchedOnce(hit, i);
            }
          }
          Append(field, ValueOf(line, field));
          found := true;
          hit := i;
        }
      }
      if found {
        ParseFinds(line, SEARCH_ORDER[hit]);
      } else {
        ParseFindsNothing(line);
      }
    }

    method InjectFile(content: string) returns (unknown: Option<string>)
      modifies this
      ensures Inject(old(State()), Split(content))
           == match unknown case None => Done(State()) case Some(line) => UnknownKey(State(), line)
    {
      var lines := Split(content);
      for i := 0 to |lines|
        invariant Inject(old(State()), lines) == Inject(State(), lines[i..])
      {
        var line := lines[i];
        assert lines[i..][1..] == lines[i + 1..];
        if IsIgnored(line) {
          continue;
        }
        var found := InjectLine(line);
        if !found {
          return Some(line);
        }
      }
      unknown := None;
    }

    method ToString() returns (content: string)
      ensures content == Print(State())
    {
      content := "";
      for i := 0 to |PRINT_ORDER|
        invariant content + PrintFields(State(), PRINT_ORDER[i..]) == Print(State())
      {
        var field := PRINT_ORDER[i];
        var values := State().Get(field);
        ghost var done, rest := content, PrintFields(State(), PRINT_ORDER[i + 1..]);
        assert PRINT_ORDER[i..][1..] == PRINT_ORDER[i + 1..];
        for j := 0 to |values|
          invariant content + PrintValues(field, values[j..]) == done + PrintValues(field, values)
        {
          assert values[j..][1..] == values[j + 1..];
          Assoc(content, Prefix(field) + " " + values[j] + "\n", PrintValues(field, values[j + 1..]));
          content := content + (Prefix(field) + " " + values[j] + "\n");
        }
        assert content == done + PrintValues(field, values);
        Assoc(done, PrintValues(field, values), rest);
      }
    }
  }

  // --- What printing and reading do to a value ---

  lemma {:induction false} SplitFirstLine(line: string, rest: string)
    requires '\n' !in line
    ensures Split(line + "\n" + rest) == [line] + Split(rest)
  {
    if line == [] {
      assert line + "\n" + rest == "\n" + rest;
      assert ("\n" + rest)[1..] == rest;
    } else {
      var all := line + "\n" + rest;
      SplitFirstLine(line[1..], rest);
      assert all[0] == line[0] && all[0] in line;
      assert all[1..] == line[1..] + "\n" + rest;
      assert [line[0]] + line[1..] == line;
    }
  }

  lemma {:induction false} LinesHaveNoNewline(s: string)
    ensures forall i :: 0 <= i < |Split(s)| ==> '\n' !in Split(s)[i]
  {
    if s != [] {
      LinesHaveNoNewline(s[1..]);
    }
  }

  lemma {:induction false} LStripSpaceFacts(s: string)
    ensures LStripSpace(s) == [] || !IsSpace(LStripSpace(s)[0])
    ensures forall c :: c in LStripSpace(s) ==> c in s
    ensures |LStripSpace(s)| <= |s|
    ensures s == [] || !IsSpace(s[0]) ==> LStripSpace(s) == s
  {
    if s != [] && IsSpace(s[0]) {
      LStripSpaceFacts(s[1..]);
    }
  }

  lemma {:induction false} RStripSpaceFacts(s: string)
    ensures RStripSpace(s) == [] || !IsSpace(RStripSpace(s)[|RStripSpace(s)| - 1])
    ensures RStripSpace(s) <= s
    ensures s == [] || !IsSpace(s[|s| - 1]) ==> RStripSpace(s) == s
    ensures s != [] && !IsSpace(s[0]) ==> RStripSpace(s) != []
  {
    if s != [] && IsSpace(s[|s| - 1]) {
      RStripSpaceFacts(s[..|s| - 1]);
    }
  }

  lemma {:induction false} LStripFacts(s: string, chars: string)
    ensures forall c :: c in LStrip(s, chars) ==> c in s
    ensures |LStrip(s, chars)| <= |s|
    ensures LStrip(s, chars) == s <==> s == [] || s[0] !in chars
    ensures s != [] && s[0] in chars ==> |LStrip(s, chars)| < |s|
  {
    if s != [] && s[0] in chars {
      LStripFacts(s[1..], chars);
    }
  }

  predicate Trimmed(s: string) {
    s == [] || (!IsSpace(s[0]) && !IsSpace(s[|s| - 1]))
  }

  lemma StripFacts(s: string)
    ensures Trimmed(Strip(s)) && |Strip(s)| <= |s|
    ensures Trimmed(s) <==> Strip(s) == s
    ensures forall c :: c in Strip(s) ==> c in s
    ensures s != [] && !IsSpace(s[0]) ==> Strip(s) != [] && Strip(s)[0] == s[0]
  {
    var left := LStripSpace(s);
    LStripSpaceFacts(s);
    RStripSpaceFacts(left);
    assert Strip(s) <= left;
    forall c | c in Strip(s)
      ensures c in s
    {
      assert c in left;
    }
  }

  // Stripping the set of a prefix's characters takes the whole prefix away.
  lemma {:induction false} LStripPast(prefix: string, rest: string, chars: string)
    requires forall c :: c in prefix ==> c in chars
    ensures LStrip(prefix + rest, chars) == LStrip(rest, chars)
  {
    if prefix == [] {
      assert prefix + rest == rest;
    } else {
      assert (prefix + rest)[0] == prefix[0] && prefix[0] in prefix;
      assert (prefix + rest)[1..] == prefix[1..] + rest;
      LStripPast(prefix[1..], rest, chars);
    }
  }

  // What reading the printed line of a value stores.
  function Reread(field: Field, value: string): string {
    if field == Load then Strip(LStrip(value, Prefix(Load))) else Strip(value)
  }

  lemma SpaceInPrefix(field: Field)
    ensures ' ' in Prefix(field) <==> field == Load
  {
    if field == Load {
      assert Prefix(Load)[4] == ' ';
    }
  }

  lemma ParsePrintedLine(field: Field, value: string)
    ensures Parse(Prefix(field) + " " + value) == Entry(field, Reread(field, value))
  {
    var prefix := Prefix(field);
    var line := prefix + " " + value;
    assert line == prefix + (" " + value);
    assert line[0] == prefix[0] && prefix[0] != '#' && !IsSpace(prefix[0]);
    StripFacts(line);
    ParseFinds(line, field);
    LStripPast(prefix, " " + value, prefix);
    SpaceInPrefix(field);
    assert (" " + value)[0] == ' ' && (" " + value)[1..] == value;
  }

  lemma PrintedPrefixHasNoNewline(field: Field)
    ensures '\n' !in Prefix(field)
  {
  }

  // --- The round trip ---

  predicate OneLiners(values: seq<string>) {
    forall i :: 0 <= i < |values| ==> '\n' !in values[i]
  }

  function RereadAll(field: Field, values: seq<string>): (r: seq<string>)
    ensures |r| == |values|
    ensures forall i :: 0 <= i < |values| ==> r[i] == Reread(field, values[i])
  {
    if values == [] then [] else [Reread(field, values[0])] + RereadAll(field, values[1..])
  }

  lemma InjectPrintedLine(lists: Lists, field: Field, value: string, more: string)
    requires '\n' !in value
    ensures Inject(lists, Split(Prefix(field) + " " + value + "\n" + more))
         == Inject(lists.Add(field, Reread(field, value)), Split(more))
  {
    var line := Prefix(field) + " " + value;
    PrintedPrefixHasNoNewline(field);
    SplitFirstLine(line, more);
    ParsePrintedLine(field, value);
    assert ([line] + Split(more))[1..] == Split(more);
  }

  lemma PutLast(lists: Lists, field: Field, a: seq<string>, b: seq<string>)
    ensures lists.Put(field, a).Put(field, b) == lists.Put(field, b)
    ensures lists.Put(field, a).Get(field) == a
    ensures lists.Put(field, lists.Get(field)) == lists
  {
  }

  lemma {:induction false} InjectValues(lists: Lists, field: Field, values: seq<string>, rest: string)
    requires OneLiners(values)
    ensures Inject(lists, Split(PrintValues(field, values) + rest))
         == Inject(lists.Put(field, lists.Get(field) + RereadAll(field, values)), Split(rest))
    decreases |values|
  {
    if values == [] {
      assert PrintValues(field, values) + rest == rest;
      assert lists.Get(field) + RereadAll(field, values) == lists.Get(field);
      PutLast(lists, field, [], []);
    } else {
      var more := PrintValues(field, values[1..]) + rest;
      var first := Reread(field, values[0]);
      var added := lists.Add(field, first);
      PrintFirst(field, values, rest);
      InjectPrintedLine(lists, field, values[0], more);
      InjectValues(added, field, values[1..], rest);
      PutLast(lists, field, lists.Get(field) + [first], lists.Get(field) + RereadAll(field, values));
      RereadFirst(lists.Get(field), field, values);
    }
  }

  lemma PrintFirst(field: Field, values: seq<string>, rest: string)
    requires values != []
    ensures PrintValues(field, values) + rest
         == Prefix(field) + " " + values[0] + "\n" + (PrintValues(field, values[1..]) + rest)
  {
    var line, tail := Prefix(field) + " " + values[0] + "\n", PrintValues(field, values[1..]);
    Assoc(line, tail, rest);
  }

  lemma RereadFirst(before: seq<string>, field: Field, values: seq<string>)
    requires values != []
    ensures before + [Reread(field, values[0])] + RereadAll(field, values[1..]) == before + RereadAll(field, values)
  {
    Assoc(before, [Reread(field, values[0])], RereadAll(field, values[1..]));
  }

  // Appends each list, as it is reread, to the corresponding list of base.
  function Merged(base: Lists, lists: Lists): Lists {
    Lists(base.scrub + RereadAll(Scrub, lists.scrub), base.nat_ + RereadAll(Nat, lists.nat_),
          base.rdr + RereadAll(Rdr, lists.rdr), base.dummynet + RereadAll(Dummynet, lists.dummynet),
          base.anchor + RereadAll(Anchor, lists.anchor), base.load + RereadAll(Load, lists.load))
  }

  ghost predicate AllOneLiners(lists: Lists) {
    forall field: Field :: OneLiners(lists.Get(field))
  }

  /** Reading a printed configuration into any other appends every value, list by list and in
      order, as the reader rewrites it; no line is rejected. */
  lemma InjectPrinted(base: Lists, lists: Lists)
    requires AllOneLiners(lists)
    ensures Inject(base, Split(Print(lists))) == Done(Merged(base, lists))
  {
    assert forall field: Field :: OneLiners(lists.Get(field));
    var l := lists;
    var p5 := PrintValues(Load, l.Get(Load)) + "";
    var p4 := PrintValues(Anchor, l.Get(Anchor)) + p5;
    var p3 := PrintValues(Dummynet, l.Get(Dummynet)) + p4;
    var p2 := PrintValues(Rdr, l.Get(Rdr)) + p3;
    var p1 := PrintValues(Nat, l.Get(Nat)) + p2;
    var p0 := PrintValues(Scrub, l.Get(Scrub)) + p1;
    assert Print(l) == p0 by {
      PrintOrder(l);
    }
    var b1 := base.(scrub := base.scrub + RereadAll(Scrub, l.scrub));
    var b2 := b1.(nat_ := base.nat_ + RereadAll(Nat, l.nat_));
    var b3 := b2.(rdr := base.rdr + RereadAll(Rdr, l.rdr));
    var b4 := b3.(dummynet := base.dummynet + RereadAll(Dummynet, l.dummynet));
    var b5 := b4.(anchor := base.anchor + RereadAll(Anchor, l.anchor));
    InjectValues(base, Scrub, l.Get(Scrub), p1);
    InjectValues(b1, Nat, l.Get(Nat), p2);
    InjectValues(b2, Rdr, l.Get(Rdr), p3);
    InjectValues(b3, Dummynet, l.Get(Dummynet), p4);
    InjectValues(b4, Anchor, l.Get(Anchor), p5);
    InjectValues(b5, Load, l.Get(Load), "");
    var merged := Merged(base, l);
    assert Parse("") == Ignored;
    assert [""][1..] == [];
    assert Inject(merged, [""]) == Inject(merged, []) == Done(merged);
  }

  lemma PrintOrder(l: Lists)
    ensures Print(l) == PrintValues(Scrub, l.Get(Scrub)) + (PrintValues(Nat, l.Get(Nat)) + (PrintValues(Rdr, l.Get(Rdr))
                      + (PrintValues(Dummynet, l.Get(Dummynet))
                          + (PrintValues(Anchor, l.Get(Anchor)) + (PrintValues(Load, l.Get(Load)) + "")))))
  {
    var order := PRINT_ORDER;
    assert order == [Scrub, Nat, Rdr, Dummynet, Anchor, Load];
    assert order[1..] == [Nat, Rdr, Dummynet, Anchor, Load];
    assert order[1..][1..] == [Rdr, Dummynet, Anchor, Load];
    assert order[1..][1..][1..] == [Dummynet, Anchor, Load];
    assert order[1..][1..][1..][1..] == [Anchor, Load];
    assert order[1..][1..][1..][1..][1..] == [Load];
    assert order[1..][1..][1..][1..][1..][1..] == [];
    assert PrintFields(l, [Load]) == PrintValues(Load, l.Get(Load)) + "";
    assert PrintFields(l, [Anchor, Load]) == PrintValues(Anchor, l.Get(Anchor)) + PrintFields(l, [Load]);
    assert PrintFields(l, [Dummynet, Anchor, Load]) == PrintValues(Dummynet, l.Get(Dummynet))
        + PrintFields(l, [Anchor, Load]);
    assert PrintFields(l, [Rdr, Dummynet, Anchor, Load]) == PrintValues(Rdr, l.Get(Rdr))
        + PrintFields(l, [Dummynet, Anchor, Load]);
    assert PrintFields(l, [Nat, Rdr, Dummynet, Anchor, Load])
        == PrintValues(Nat, l.Get(Nat)) + PrintFields(l, [Rdr, Dummynet, Anchor, Load]);
  }

  // A value the reader gives back as printed: one trimmed line; after "load anchor" it must
  // not begin with one of that prefix's characters, which lstrip would take away too.
  predicate Survives(field: Field, value: string) {
    && '\n' !in value && Trimmed(value)
    && (field == Load && value != [] ==> value[0] !in Prefix(Load))
  }

  lemma RereadIsIdentity(field: Field, value: string)
    ensures Reread(field, value) == value
       <==> Trimmed(value) && (field == Load && value != [] ==> value[0] !in Prefix(Load))
    ensures Trimmed(Reread(field, value))
  {
    StripFacts(value);
    LStripFacts(value, Prefix(Load));
    StripFacts(LStrip(value, Prefix(Load)));
  }

  // Values read from lines have no newline in them.
  lemma {:induction false} InjectedValuesAreOneLiners(lists: Lists, lines: seq<string>)
    requires AllOneLiners(lists) && OneLiners(lines)
    ensures AllOneLiners(Inject(lists, lines).lists)
    decreases |lines|
  {
    if lines != [] {
      match Parse(lines[0]) {
        case Ignored => InjectedValuesAreOneLiners(lists, lines[1..]);
        case Entry(field, value) =>
          StripFacts(LStrip(lines[0], Prefix(field)));
          LStripFacts(lines[0], Prefix(field));
          OneMoreOneLiner(lists, field, value);
          InjectedValuesAreOneLiners(lists.Add(field, value), lines[1..]);
        case Unknown =>
      }
    }
  }

  lemma OneMoreOneLiner(lists: Lists, field: Field, value: string)
    requires AllOneLiners(lists) && '\n' !in value
    ensures AllOneLiners(lists.Add(field, value))
  {
    forall f: Field
      ensures OneLiners(lists.Add(field, value).Get(f))
    {
      assert OneLiners(lists.Get(f));
    }
  }

  ghost predicate AllSurvive(lists: Lists) {
    forall field: Field :: forall i :: 0 <= i < |lists.Get(field)| ==> Survives(field, lists.Get(field)[i])
  }

  function EmptyLists(): Lists {
    Lists([], [], [], [], [], [])
  }

  /** Printing a configuration and reading the text into an empty one gives the same six lists
      if and only if every value is one trimmed line and no load-anchor value begins with a
      character of "load anchor". */
  lemma RoundTrip(lists: Lists)
    ensures Inject(EmptyLists(), Split(Print(lists))) == Done(lists) <==> AllSurvive(lists)
  {
    var outcome := Inject(EmptyLists(), Split(Print(lists)));
    if outcome == Done(lists) {
      LinesHaveNoNewline(Print(lists));
      InjectedValuesAreOneLiners(EmptyLists(), Split(Print(lists)));
      assert AllOneLiners(lists);
    }
    if AllSurvive(lists) {
      forall field: Field
        ensures OneLiners(lists.Get(field))
      {
      }
    }
    if AllOneLiners(lists) {
      InjectPrinted(EmptyLists(), lists);
      MergedIsIdentity(lists);
    }
  }

  lemma MergedIsIdentity(lists: Lists)
    requires AllOneLiners(lists)
    ensures Merged(EmptyLists(), lists) == lists <==> AllSurvive(lists)
  {
    var merged := Merged(EmptyLists(), lists);
    forall field: Field
      ensures merged.Get(field) == lists.Get(field) <==> ListSurvives(field, lists.Get(field))
    {
      MergedGet(field, lists);
      ListIsIdentity(field, lists.Get(field));
    }
    SameLists(merged, lists);
  }

  ghost predicate ListSurvives(field: Field, values: seq<string>) {
    forall i :: 0 <= i < |values| ==> Survives(field, values[i])
  }

  lemma MergedGet(field: Field, lists: Lists)
    ensures Merged(EmptyLists(), lists).Get(field) == RereadAll(field, lists.Get(field))
  {
  }

  lemma ListIsIdentity(field: Field, values: seq<string>)
    requires OneLiners(values)
    ensures RereadAll(field, values) == values <==> ListSurvives(field, values)
  {
    forall i | 0 <= i < |values|
      ensures Survives(field, values[i]) <==> RereadAll(field, values)[i] == values[i]
    {
      RereadIsIdentity(field, values[i]);
    }
  }

  lemma SameLists(a: Lists, b: Lists)
    ensures a == b <==> forall field: Field :: a.Get(field) == b.Get(field)
  {
    if forall field: Field :: a.Get(field) == b.Get(field) {
      assert a.scrub == a.Get(Scrub) && a.nat_ == a.Get(Nat) && a.rdr == a.Get(Rdr);
      assert a.dummynet == a.Get(Dummynet) && a.anchor == a.Get(Anchor) && a.load == a.Get(Load);
    }
  }
}
