/** The façade between the menu and the store (src/AppController.java): adding a
    patron turns a rejected record into `false`, and importing reads
    `id-name-address-fine` lines, counting the patrons actually added. The file
    is given as the sequence of its lines. */
module Controller {
  import opened Wrappers
  import opened Text
  import opened Decimals
  import opened Patrons
  import opened Repository

  // ---------------------------------------------------------------------
  // addPatron on the map
  // ---------------------------------------------------------------------

  /** `addPatron(id, name, address, fine)`: construct, then insert. A record the
      constructor rejects leaves the map as it was and gives false, as does an id
      already stored; otherwise the new patron is inserted under its id. */
  function AddRecord(m: Store, id: string, name: string, address: string, fine: Decimal): (r: (Store, bool))
    ensures r.1 <==> NewPatron(id, name, address, fine).Success? && id !in m
    ensures !r.1 ==> r.0 == m
    ensures r.1 ==> r.0 == m[id := NewPatron(id, name, address, fine).value]
    ensures Keyed(m) ==> Keyed(r.0)
    ensures AllWellFormed(m) ==> AllWellFormed(r.0)
  {
    match NewPatron(id, name, address, fine)
    case Failure(_) => (m, false)
    case Success(p) => Insert(m, p)
  }

  // ---------------------------------------------------------------------
  // One line of an import file
  // ---------------------------------------------------------------------

  /** What the loop makes of one line: skipped for the field count, skipped for
      the fine, or four trimmed fields with the parsed fine. */
  datatype LineOutcome =
    | WrongFieldCount
    | UnparsableFine
    | Fields(id: string, name: string, address: string, fine: Decimal)

  /** A field that survives a line round trip: no separator inside, nothing for
      `trim` to cut at either end. */
  predicate CleanField(s: string) {
    Separator !in s && (s == [] || (!IsTrimmed(s[0]) && !IsTrimmed(s[|s| - 1])))
  }

  /** Trimming only cuts characters off, so it adds none. */
  lemma TrimKeepsOut(s: string, c: char)
    requires c !in s
    ensures c !in Trim(s)
  {
    var r := Trim(s);
    var lo :| CutAt(s, r, lo);
    forall k | 0 <= k < |r| ensures r[k] != c {
      assert r[k] == s[lo + k];
    }
  }

  /** `line.split("-")` must give exactly four parts; each part is trimmed and
      the fourth must read as a decimal. */
  function ParseLine(line: string): (r: LineOutcome)
    ensures r == WrongFieldCount <==> |JavaSplit(line)| != 4
    ensures r.Fields? ==> CleanField(r.id) && CleanField(r.name) && CleanField(r.address)
  {
    var parts := JavaSplit(line);
    if |parts| != 4 then WrongFieldCount
    else
      TrimKeepsOut(parts[0], Separator);
      TrimKeepsOut(parts[1], Separator);
      TrimKeepsOut(parts[2], Separator);
      match ParseDecimal(Trim(parts[3]))
      case None => UnparsableFine
      case Some(fine) => Fields(Trim(parts[0]), Trim(parts[1]), Trim(parts[2]), fine)
  }

  /** One pass of the loop body: the new map and whether the count goes up. A line
      that is skipped, rejected, or repeats a stored id changes nothing. */
  function ImportLine(m: Store, line: string): (r: (Store, bool))
    ensures !r.1 ==> r.0 == m
    ensures r.1 ==> |r.0| == |m| + 1 && m.Keys <= r.0.Keys && forall k :: k in m ==> r.0[k] == m[k]
    ensures Keyed(m) ==> Keyed(r.0)
    ensures AllWellFormed(m) ==> AllWellFormed(r.0)
  {
    match ParseLine(line)
    case Fields(id, name, address, fine) => AddRecord(m, id, name, address, fine)
    case _ => (m, false)
  }

  /** A loop over lines that updates the store and counts the lines for which
      `step` reports an addition: the lines processed in order, defined on the last
      line so that each pass of the loop extends it by one. */
  function Fold(step: (Store, string) -> (Store, bool), m: Store, lines: seq<string>): (r: (Store, nat))
    ensures r.1 <= |lines|
    decreases |lines|
  {
    if lines == [] then (m, 0)
    else Then(step, Fold(step, m, lines[..|lines| - 1]), lines[|lines| - 1])
  }

  /** One pass: `step` on the store so far, the count going up when it reports an addition. */
  function Then(step: (Store, string) -> (Store, bool), before: (Store, nat), line: string): (Store, nat) {
    var after := step(before.0, line);
    (after.0, if after.1 then before.1 + 1 else before.1)
  }

  lemma FoldSnoc(step: (Store, string) -> (Store, bool), m: Store, lines: seq<string>, line: string)
    ensures Fold(step, m, lines + [line]) == Then(step, Fold(step, m, lines), line)
  {
    var all := lines + [line];
    assert all[..|all| - 1] == lines && all[|all| - 1] == line;
  }

  /** One more pass of a loop that keeps `Fold` as its invariant. */
  lemma FoldNext(step: (Store, string) -> (Store, bool), m: Store, lines: seq<string>, i: nat,
                 store: Store, count: int, next: Store, added: bool)
    requires i < |lines|
    requires (store, count) == Fold(step, m, lines[..i])
    requires (next, added) == step(store, lines[i])
    ensures (next, if added then count + 1 else count) == Fold(step, m, lines[..i + 1])
  {
    FoldSnoc(step, m, lines[..i], lines[i]);
    assert lines[..i + 1] == lines[..i] + [lines[i]];
  }

  /** The import of `lines` into the store `m`: the new store and the count. */
  function ImportAll(m: Store, lines: seq<string>): (r: (Store, nat))
    ensures r.1 <= |lines|
    ensures |r.0| == |m| + r.1
  {
    ImportLineAddsOnly();
    FoldGrowth(ImportLine, m, lines);
    Fold(ImportLine, m, lines)
  }

  /** A step that only ever adds one new entry when it reports an addition, and
      otherwise changes nothing. */
  ghost predicate AddsOnly(step: (Store, string) -> (Store, bool)) {
    forall m, line ::
      && (!step(m, line).1 ==> step(m, line).0 == m)
      && (step(m, line).1 ==> |step(m, line).0| == |m| + 1 && m.Keys <= step(m, line).0.Keys
                              && forall k :: k in m ==> step(m, line).0[k] == m[k])
      && (Keyed(m) ==> Keyed(step(m, line).0))
      && (AllWellFormed(m) ==> AllWellFormed(step(m, line).0))
  }

  lemma ImportLineAddsOnly()
    ensures AddsOnly(ImportLine)
  {
  }

  lemma {:induction false} FoldGrowth(step: (Store, string) -> (Store, bool), m: Store, lines: seq<string>)
    requires AddsOnly(step)
    ensures Fold(step, m, lines).1 <= |lines|
    ensures |Fold(step, m, lines).0| == |m| + Fold(step, m, lines).1
    ensures m.Keys <= Fold(step, m, lines).0.Keys
    ensures forall k :: k in m ==> Fold(step, m, lines).0[k] == m[k]
    ensures Keyed(m) ==> Keyed(Fold(step, m, lines).0)
    ensures AllWellFormed(m) ==> AllWellFormed(Fold(step, m, lines).0)
    decreases |lines|
  {
    if lines != [] {
      FoldGrowth(step, m, lines[..|lines| - 1]);
    }
  }

  lemma {:induction false} FoldConcat(step: (Store, string) -> (Store, bool), m: Store, a: seq<string>, b: seq<string>)
    ensures Fold(step, m, a + b).0 == Fold(step, Fold(step, m, a).0, b).0
    ensures Fold(step, m, a + b).1 == Fold(step, m, a).1 + Fold(step, Fold(step, m, a).0, b).1
    decreases |b|
  {
    if b == [] {
      assert a + b == a;
    } else {
      var init := b[..|b| - 1];
      FoldConcat(step, m, a, init);
      var ab := a + b;
      assert ab[..|ab| - 1] == a + init;
      assert ab[|ab| - 1] == b[|b| - 1];
    }
  }

  /** The count is at most the number of lines; the store grows by exactly the
      count; nothing already stored is removed or replaced; the invariant holds. */
  lemma ImportGrowth(m: Store, lines: seq<string>)
    ensures ImportAll(m, lines).1 <= |lines|
    ensures |ImportAll(m, lines).0| == |m| + ImportAll(m, lines).1
    ensures m.Keys <= ImportAll(m, lines).0.Keys
    ensures forall k :: k in m ==> ImportAll(m, lines).0[k] == m[k]
    ensures Keyed(m) ==> Keyed(ImportAll(m, lines).0)
    ensures AllWellFormed(m) ==> AllWellFormed(ImportAll(m, lines).0)
  {
    ImportLineAddsOnly();
    FoldGrowth(ImportLine, m, lines);
  }

  /** Importing two files one after the other is importing their concatenation. */
  lemma ImportConcat(m: Store, a: seq<string>, b: seq<string>)
    ensures ImportAll(m, a + b).0 == ImportAll(ImportAll(m, a).0, b).0
    ensures ImportAll(m, a + b).1 == ImportAll(m, a).1 + ImportAll(ImportAll(m, a).0, b).1
  {
    FoldConcat(ImportLine, m, a, b);
  }

  /** A later line repeating an id, whether from the file or already stored,
      never displaces the first record. */
  lemma FirstRecordKept(m: Store, a: seq<string>, b: seq<string>, id: string)
    requires id in ImportAll(m, a).0
    ensures id in ImportAll(m, a + b).0
    ensures ImportAll(m, a + b).0[id] == ImportAll(m, a).0[id]
  {
    ImportConcat(m, a, b);
    ImportGrowth(ImportAll(m, a).0, b);
  }

  /** A line is counted exactly when it parses to four fields, the constructor
      accepts them and their id is not yet stored. */
  lemma ImportLineCounted(m: Store, line: string)
    ensures ImportLine(m, line).1 <==>
      match ParseLine(line)
      case Fields(id, name, address, fine) => NewPatron(id, name, address, fine).Success? && id !in m
      case _ => false
  {
  }

  /** A line that parses to four fields is the add of those fields ... */
  lemma ImportLineFields(m: Store, line: string, id: string, name: string, address: string, fine: Decimal)
    requires ParseLine(line) == Fields(id, name, address, fine)
    ensures ImportLine(m, line) == AddRecord(m, id, name, address, fine)
  {
  }

  /** ... and any other line changes nothing and does not count. */
  lemma ImportLineSkipped(m: Store, line: string)
    requires !ParseLine(line).Fields?
    ensures ImportLine(m, line) == (m, false)
  {
  }

  /** A line whose id is already stored is not counted. */
  lemma DuplicateLineNotCounted(m: Store, line: string)
    requires ParseLine(line).Fields? && ParseLine(line).id in m
    ensures ImportLine(m, line) == (m, false)
  {
  }

  // ---------------------------------------------------------------------
  // Worked lines
  // ---------------------------------------------------------------------

  // The worked examples take their literals as parameters fixed by `requires`
  // rather than writing them in the `ensures`, so that the solver meets each
  // literal only where the proof uses it.

  lemma TrimUnchanged(s: string)
    requires s != [] && !IsTrimmed(s[0]) && !IsTrimmed(s[|s| - 1])
    ensures Trim(s) == s
  {
  }

  /** Four parts glued with three separators. */
  lemma JoinFour(a: string, b: string, c: string, d: string)
    ensures Join([a, b, c, d]) == a + [Separator] + b + [Separator] + c + [Separator] + d
  {
    assert Join([d]) == d;
    assert [c, d][1..] == [d];
    assert Join([c, d]) == c + [Separator] + d;
    assert [b, c, d][1..] == [c, d];
    assert Join([b, c, d]) == b + [Separator] + (c + [Separator] + d);
    assert [a, b, c, d][1..] == [b, c, d];
  }

  /** A line that splits into four parts: the outcome is decided by the fourth. */
  lemma FourParts(line: string, a: string, b: string, c: string, d: string)
    requires JavaSplit(line) == [a, b, c, d]
    ensures ParseDecimal(Trim(d)).None? ==> ParseLine(line) == UnparsableFine
    ensures ParseDecimal(Trim(d)).Some? ==> ParseLine(line) == Fields(Trim(a), Trim(b), Trim(c), ParseDecimal(Trim(d)).value)
  {
  }

  /** Splitting a line made of separator-free parts. */
  lemma SplitLine(parts: seq<string>, line: string)
    requires |parts| >= 2 && line == Join(parts)
    requires forall i :: 0 <= i < |parts| ==> Separator !in parts[i]
    ensures JavaSplit(line) == DropTrailingEmpty(parts)
  {
    SplitJoin(parts);
    assert Join(parts) == parts[0] + [Separator] + Join(parts[1..]);
    assert line[|parts[0]|] == Separator;
  }

  /** A trailing "-" leaves an empty last field, which split drops: three parts. */
  lemma TrailingSeparatorSkipped(line: string)
    requires line == "1234567-Jane-Main-"
    ensures JavaSplit(line) == ["1234567", "Jane", "Main"]
    ensures ParseLine(line) == WrongFieldCount
  {
    var parts := ["1234567", "Jane", "Main", ""];
    assert JavaSplit(line) == parts[..3] by {
      assert Join(parts) == line by {
        JoinFour(parts[0], parts[1], parts[2], parts[3]);
        assert parts[0] + [Separator] + parts[1] + [Separator] + parts[2] + [Separator] + parts[3] == line;
      }
      SplitLine(parts, line);
      assert DropTrailingEmpty(parts[..3]) == parts[..3];
    }
  }

  /** A leading "-" gives a leading empty field, so five parts. */
  lemma LeadingSeparatorSkipped(line: string)
    requires line == "-1234567-Jane-Main-5"
    ensures JavaSplit(line) == ["", "1234567", "Jane", "Main", "5"]
    ensures ParseLine(line) == WrongFieldCount
  {
    var parts := ["", "1234567", "Jane", "Main", "5"];
    assert JavaSplit(line) == parts by {
      JoinLeading(parts, line);
      SplitLine(parts, line);
    }
  }

  lemma JoinLeading(parts: seq<string>, line: string)
    requires parts == ["", "1234567", "Jane", "Main", "5"] && line == "-1234567-Jane-Main-5"
    ensures Join(parts) == line
  {
    assert parts[1..] == ["1234567", "Jane", "Main", "5"];
    JoinFour("1234567", "Jane", "Main", "5");
    assert "-" + "1234567" + "-" + "Jane" + "-" + "Main" + "-" + "5" == line;
  }

  /** Four clean fields glued with separators read back as those fields, the
      fourth through the decimal parser. */
  lemma ParseJoinedFields(a: string, b: string, c: string, d: string, fine: Decimal)
    requires CleanField(a) && CleanField(b) && CleanField(c) && CleanField(d)
    requires d != [] && ParseDecimal(d) == Some(fine)
    ensures ParseLine(Join([a, b, c, d])) == Fields(a, b, c, fine)
  {
    var parts := [a, b, c, d];
    SplitLine(parts, Join(parts));
    FourParts(Join(parts), a, b, c, d);
    assert Trim(d) == d by { TrimUnchanged(d); }
    if a != [] { TrimUnchanged(a); }
    if b != [] { TrimUnchanged(b); }
    if c != [] { TrimUnchanged(c); }
  }

  lemma JaneLine(line: string)
    requires line == "1234567-Jane-123 Main St-10.00"
    ensures ParseLine(line) == Fields("1234567", "Jane", "123 Main St", Decimal(1000, 2))
  {
    var id, name, address, fine := "1234567", "Jane", "123 Main St", "10.00";
    assert Join([id, name, address, fine]) == line by {
      JoinFour(id, name, address, fine);
      assert id + [Separator] + name + [Separator] + address + [Separator] + fine == line;
    }
    assert CleanField(id) && CleanField(name) && CleanField(address) && CleanField(fine);
    assert ParseDecimal(fine) == Some(Decimal(1000, 2)) by { ParseTenPointZeroZero(fine); }
    ParseJoinedFields(id, name, address, fine, Decimal(1000, 2));
  }

  lemma BadLine(line: string)
    requires line == "bad-line"
    ensures ParseLine(line) == WrongFieldCount
  {
    var parts := ["bad", "line"];
    assert Join(parts) == line;
    SplitLine(parts, line);
  }

  lemma TomLine(line: string)
    requires line == "7654321-Tom-456 Oak St-abc"
    ensures ParseLine(line) == UnparsableFine
  {
    var id, name, address, fine := "7654321", "Tom", "456 Oak St", "abc";
    assert JavaSplit(line) == [id, name, address, fine] by {
      JoinFour(id, name, address, fine);
      assert id + [Separator] + name + [Separator] + address + [Separator] + fine == line;
      SplitLine([id, name, address, fine], line);
    }
    assert ParseDecimal(Trim(fine)) == None by {
      TrimUnchanged(fine);
      ParseRejects();
    }
    FourParts(line, id, name, address, fine);
  }

  /** Jane's record passes the constructor unchanged, her fine already at scale 2. */
  lemma JaneAccepted(jane: Patron)
    requires jane == Patron("1234567", "Jane", "123 Main St", Decimal(1000, 2))
    ensures NewPatron(jane.id, jane.name, jane.address, jane.fine) == Success(jane)
  {
    assert IsIdText(jane.id);
    assert Pow10(2) == 100;
    assert Value(jane.fine) == 10.0;
    RoundHalfUpExamples();
  }

  lemma JaneImported(line: string, jane: Patron)
    requires line == "1234567-Jane-123 Main St-10.00"
    requires jane == Patron("1234567", "Jane", "123 Main St", Decimal(1000, 2))
    ensures ImportLine(map[], line) == (map[jane.id := jane], true)
  {
    JaneLine(line);
    JaneAccepted(jane);
  }

  lemma SkippedLines(m: Store, bad: string, tom: string)
    requires bad == "bad-line" && tom == "7654321-Tom-456 Oak St-abc"
    ensures ImportLine(m, bad) == (m, false) && ImportLine(m, tom) == (m, false)
  {
    BadLine(bad);
    TomLine(tom);
  }

  /** A valid line, a line with two fields and a line with an unreadable fine:
      one patron is imported, the first. */
  lemma ImportThreeLines(lines: seq<string>)
    requires lines == ["1234567-Jane-123 Main St-10.00", "bad-line", "7654321-Tom-456 Oak St-abc"]
    ensures ImportAll(map[], lines) == (map["1234567" := Patron("1234567", "Jane", "123 Main St", Decimal(1000, 2))], 1)
  {
    var jane := Patron("1234567", "Jane", "123 Main St", Decimal(1000, 2));
    var m0: Store := map[];
    var m1 := m0[jane.id := jane];
    JaneImported(lines[0], jane);
    SkippedLines(m1, lines[1], lines[2]);
    FoldAddThenSkip(ImportLine, m0, m1, lines);
  }

  /** Three passes of the loop where only the first adds. */
  lemma FoldAddThenSkip(step: (Store, string) -> (Store, bool), m0: Store, m1: Store, lines: seq<string>)
    requires |lines| == 3
    requires step(m0, lines[0]) == (m1, true)
    requires step(m1, lines[1]) == (m1, false) && step(m1, lines[2]) == (m1, false)
    ensures Fold(step, m0, lines) == (m1, 1)
  {
    FoldSnoc(step, m0, [], lines[0]);
    assert [] + [lines[0]] == lines[..1];
    FoldSnoc(step, m0, lines[..1], lines[1]);
    assert lines[..1] + [lines[1]] == lines[..2];
    FoldSnoc(step, m0, lines[..2], lines[2]);
    assert lines[..2] + [lines[2]] == lines;
  }

  // ---------------------------------------------------------------------
  // The controller object
  // ---------------------------------------------------------------------

  class AppController {
    const repository: PatronRepository

    constructor(repository: PatronRepository)
      ensures this.repository == repository
    {
      this.repository := repository;
    }

    /** Constructs the patron and stores it; false when the constructor rejects
        the record (the source prints the reason) or the id is taken. */
    method AddPatron(id: string, name: string, address: string, fine: Decimal) returns (added: bool)
      requires repository.Valid()
      modifies repository
      ensures repository.Valid()
      ensures (repository.patrons, added) == AddRecord(old(repository.patrons), id, name, address, fine)
    {
      var created := NewPatron(id, name, address, fine);
      if created.Failure? {
        return false;
      }
      added := repository.AddPatron(created.value);
    }

    method RemovePatron(id: string) returns (removed: bool)
      requires repository.Valid()
      modifies repository
      ensures repository.Valid()
      ensures (repository.patrons, removed) == Delete(old(repository.patrons), id)
    {
      removed := repository.RemovePatron(id);
    }

    function ListPatrons(): (r: seq<Patron>)
      reads repository
      requires repository.Valid()
      ensures r == repository.GetAllPatrons()
      ensures AscendingIds(r) && forall p :: p in r <==> p in repository.patrons.Values
    {
      repository.GetAllPatrons()
    }

    function SearchById(id: string): (r: Option<Patron>)
      reads repository
      requires repository.Valid()
      ensures r == repository.SearchById(id)
      ensures r.Some? <==> id in repository.patrons
    {
      repository.SearchById(id)
    }

    function SearchByName(name: string): (r: seq<Patron>)
      reads repository
      requires repository.Valid()
      ensures r == repository.SearchByName(name)
      ensures AscendingIds(r) && forall p :: p in r <==> p in repository.patrons.Values && NameMatches(p, name)
    {
      repository.SearchByName(name)
    }

    /** `importFromFile` over the lines of the file: each line is split, trimmed,
        its fine parsed and the record added; the count of added patrons is returned.
        A read failure part-way is the import of the lines read so far. */
    method ImportFromFile(lines: seq<string>) returns (count: int)
      requires repository.Valid()
      modifies repository
      ensures repository.Valid()
      ensures (repository.patrons, count) == ImportAll(old(repository.patrons), lines)
    {
      count := 0;
      var i := 0;
      while i < |lines|
        invariant 0 <= i <= |lines|
        invariant repository.Valid()
        invariant (repository.patrons, count) == Fold(ImportLine, old(repository.patrons), lines[..i])
      {
        ghost var before := repository.patrons;
        var added := ImportOneLine(lines[i]);
        FoldNext(ImportLine, old(repository.patrons), lines, i, before, count, repository.patrons, added);
        if added {
          count := count + 1;
        }
        i := i + 1;
      }
      assert lines[..|lines|] == lines;
    }

    /** The body of the import loop for one line; false for a line that is skipped
        (wrong field count, unreadable fine) or whose record is not added. */
    method ImportOneLine(line: string) returns (added: bool)
      requires repository.Valid()
      modifies repository
      ensures repository.Valid()
      ensures (repository.patrons, added) == ImportLine(old(repository.patrons), line)
    {
      var parsed := ParseLine(line);
      if !parsed.Fields? {
        ImportLineSkipped(repository.patrons, line);
        return false;
      }
      ImportLineFields(repository.patrons, line, parsed.id, parsed.name, parsed.address, parsed.fine);
      added := AddPatron(parsed.id, parsed.name, parsed.address, parsed.fine);
    }
  }
}
