/** The allowed-signers file: printed by the server, one `identity pubkey` line per key, and read by the agent
    line by line when it verifies a signature. */
module SignersText {
  import opened Wrappers
  import opened Texts
  import Cache = SignersCache

  type Row = Cache.Row

  // ---------- the server prints ----------

  function PrintRow(row: Row): string {
    row.identity + " " + row.pubkey
  }

  function PrintRows(rows: seq<Row>): seq<string> {
    seq(|rows|, i requires 0 <= i < |rows| => PrintRow(rows[i]))
  }

  function Print(rows: seq<Row>): string {
    Join(PrintRows(rows), "\n")
  }

  // ---------- the agent reads ----------

  function IndexOf(s: string, c: char): (k: nat)
    ensures k <= |s|
    ensures k < |s| ==> s[k] == c
    ensures forall i :: 0 <= i < k ==> s[i] != c
  {
    if s == "" || s[0] == c then 0 else 1 + IndexOf(s[1..], c)
  }

  function StripCr(line: string): string {
    if line != "" && line[|line| - 1] == '\r' then line[..|line| - 1] else line
  }

  /** `str::lines`: a carriage return goes with the line feed after it; no line after a final line feed. */
  function Lines(s: string): seq<string>
    decreases |s|
  {
    if s == "" then []
    else
      var k := IndexOf(s, '\n');
      if k == |s| then [s] else [StripCr(s[..k])] + Lines(s[k + 1..])
  }

  /** `splitn(2, ' ')`, where it yields two parts. */
  function SplitLine(line: string): Option<Row> {
    var k := IndexOf(line, ' ');
    if k == |line| then None else Some(Cache.Row(line[..k], line[k + 1..]))
  }

  function SplitLines(lines: seq<string>): seq<Row> {
    if lines == [] then []
    else
      var rest := SplitLines(lines[1..]);
      match SplitLine(lines[0])
      case None => rest
      case Some(row) => [row] + rest
  }

  function ReadRows(text: string): seq<Row> {
    SplitLines(Lines(text))
  }

  // ---------- round trip ----------

  predicate RowPrintable(row: Row) {
    '\n' !in row.identity && ' ' !in row.identity && '\n' !in row.pubkey
  }

  /** Identities without space or line feed, keys without line feed, and no key but the last ending in a
      carriage return. */
  predicate Printable(rows: seq<Row>) {
    && (forall i :: 0 <= i < |rows| ==> RowPrintable(rows[i]))
    && (forall i :: 0 <= i < |rows| - 1 ==> StripCr(rows[i].pubkey) == rows[i].pubkey)
  }

  lemma SplitPrinted(row: Row)
    requires RowPrintable(row)
    ensures SplitLine(PrintRow(row)) == Some(row)
  {
    var line := PrintRow(row);
    assert line[|row.identity|] == ' ';
    assert forall i :: 0 <= i < |row.identity| ==> line[i] == row.identity[i];
    assert IndexOf(line, ' ') == |row.identity|;
    assert line[..|row.identity|] == row.identity && line[|row.identity| + 1..] == row.pubkey;
  }

  lemma StripPrinted(row: Row)
    ensures StripCr(PrintRow(row)) == PrintRow(Cache.Row(row.identity, StripCr(row.pubkey)))
  {
    var line := PrintRow(row);
    if row.pubkey == "" {
      assert line[|line| - 1] == ' ';
    } else {
      assert line[|line| - 1] == row.pubkey[|row.pubkey| - 1];
    }
  }

  function StripAllButLast(rows: seq<Row>): seq<Row> {
    if |rows| <= 1 then rows
    else [Cache.Row(rows[0].identity, StripCr(rows[0].pubkey))] + StripAllButLast(rows[1..])
  }

  lemma FirstLine(line: string, rest: string)
    requires '\n' !in line
    ensures Lines(line + "\n" + rest) == [StripCr(line)] + Lines(rest)
  {
    var s := line + "\n" + rest;
    assert s[|line|] == '\n';
    assert forall i :: 0 <= i < |line| ==> s[i] == line[i];
    assert IndexOf(s, '\n') == |line|;
    assert s[..|line|] == line && s[|line| + 1..] == rest;
  }

  lemma PrintMore(rows: seq<Row>)
    requires |rows| > 1
    ensures Print(rows) == PrintRow(rows[0]) + "\n" + Print(rows[1..])
  {
    assert PrintRows(rows)[1..] == PrintRows(rows[1..]);
  }

  lemma LastLine(line: string)
    requires '\n' !in line && line != ""
    ensures Lines(line) == [line]
  {
  }

  /** Reading printed rows whose parts stay on their lines loses only carriage returns before line feeds. */
  lemma {:induction false} ReadPrinted(rows: seq<Row>)
    requires forall i :: 0 <= i < |rows| ==> RowPrintable(rows[i])
    ensures ReadRows(Print(rows)) == StripAllButLast(rows)
  {
    if |rows| == 1 {
      assert PrintRows(rows) == [PrintRow(rows[0])];
      LastLine(PrintRow(rows[0]));
      SplitPrinted(rows[0]);
      assert [PrintRow(rows[0])][1..] == [];
      assert SplitLines([PrintRow(rows[0])]) == [rows[0]] + SplitLines([]);
    } else if |rows| > 1 {
      var stripped := Cache.Row(rows[0].identity, StripCr(rows[0].pubkey));
      PrintMore(rows);
      FirstLine(PrintRow(rows[0]), Print(rows[1..]));
      StripPrinted(rows[0]);
      SplitPrinted(stripped);
      ReadPrinted(rows[1..]);
      var rest := Lines(Print(rows[1..]));
      assert ([PrintRow(stripped)] + rest)[1..] == rest;
    }
  }

  lemma {:induction false} StripNothing(rows: seq<Row>)
    ensures StripAllButLast(rows) == rows
       <==> forall i :: 0 <= i < |rows| - 1 ==> StripCr(rows[i].pubkey) == rows[i].pubkey
  {
    if |rows| > 1 {
      StripNothing(rows[1..]);
      assert rows == [rows[0]] + rows[1..];
      assert StripAllButLast(rows)[1..] == StripAllButLast(rows[1..]);
      if StripAllButLast(rows) == rows {
        assert rows[0] == StripAllButLast(rows)[0];
      }
      if forall i :: 0 <= i < |rows| - 1 ==> StripCr(rows[i].pubkey) == rows[i].pubkey {
        assert forall i :: 0 <= i < |rows[1..]| - 1 ==> rows[1..][i] == rows[i + 1];
      } else if StripAllButLast(rows[1..]) == rows[1..] {
        assert forall i :: 0 < i < |rows| - 1 ==> rows[i] == rows[1..][i - 1];
      }
    }
  }

  lemma {:induction false} LinesHaveNoBreak(s: string)
    ensures forall i :: 0 <= i < |Lines(s)| ==> '\n' !in Lines(s)[i]
    decreases |s|
  {
    if s != "" && IndexOf(s, '\n') < |s| {
      LinesHaveNoBreak(s[IndexOf(s, '\n') + 1..]);
    }
  }

  lemma {:induction false} SplitRowsArePrintable(lines: seq<string>)
    requires forall i :: 0 <= i < |lines| ==> '\n' !in lines[i]
    ensures forall i :: 0 <= i < |SplitLines(lines)| ==> RowPrintable(SplitLines(lines)[i])
  {
    if lines != [] {
      SplitRowsArePrintable(lines[1..]);
    }
  }

  /** The printed file reads back to the printed list exactly when the list is printable. */
  lemma PrintedReadsBackIff(rows: seq<Row>)
    ensures ReadRows(Print(rows)) == rows <==> Printable(rows)
  {
    LinesHaveNoBreak(Print(rows));
    SplitRowsArePrintable(Lines(Print(rows)));
    if forall i :: 0 <= i < |rows| ==> RowPrintable(rows[i]) {
      ReadPrinted(rows);
      StripNothing(rows);
    }
  }

  // ---------- lookup ----------

  /** `parse_allowed_signer`: lines without two parts, or whose key does not parse, are skipped. */
  function ParseAllowedSigner<K>(parse: string -> Option<K>, line: string): Option<(K, string)> {
    match SplitLine(line)
    case None => None
    case Some(row) =>
      match parse(row.pubkey)
      case None => None
      case Some(key) => Some((key, row.identity))
  }

  /** The first line of `lines` that names `key`. */
  function FirstSigner<K(==)>(parse: string -> Option<K>, lines: seq<string>, key: K): Option<string> {
    if lines == [] then None
    else
      var entry := ParseAllowedSigner(parse, lines[0]);
      if entry.Some? && entry.value.0 == key then Some(entry.value.1) else FirstSigner(parse, lines[1..], key)
  }

  function Lookup<K(==)>(parse: string -> Option<K>, text: string, key: K): Option<string> {
    FirstSigner(parse, Lines(text), key)
  }

  /** `found` is the identity of the first row with `key`, or nothing if no row has it. */
  ghost predicate FirstOwner<K(!new)>(parse: string -> Option<K>, rows: seq<Row>, key: K, found: Option<string>) {
    match found
    case None => forall i :: 0 <= i < |rows| ==> parse(rows[i].pubkey) != Some(key)
    case Some(identity) =>
      exists i :: 0 <= i < |rows| && parse(rows[i].pubkey) == Some(key) && rows[i].identity == identity
        && forall j :: 0 <= j < i ==> parse(rows[j].pubkey) != Some(key)
  }

  lemma FirstOwnerLater<K(!new)>(parse: string -> Option<K>, row: Row, rest: seq<Row>, key: K, found: Option<string>)
    requires parse(row.pubkey) != Some(key) && FirstOwner(parse, rest, key, found)
    ensures FirstOwner(parse, [row] + rest, key, found)
  {
    var rows := [row] + rest;
    assert forall j :: 0 < j < |rows| ==> rows[j] == rest[j - 1];
    if found.Some? {
      var i :| 0 <= i < |rest| && parse(rest[i].pubkey) == Some(key) && rest[i].identity == found.value
        && forall j :: 0 <= j < i ==> parse(rest[j].pubkey) != Some(key);
      assert rows[i + 1] == rest[i];
    }
  }

  lemma {:induction false} LookupByRows<K(!new)>(parse: string -> Option<K>, lines: seq<string>, key: K)
    ensures FirstOwner(parse, SplitLines(lines), key, FirstSigner(parse, lines, key))
  {
    if lines != [] {
      LookupByRows(parse, lines[1..], key);
      match SplitLine(lines[0]) {
        case None =>
        case Some(row) =>
          if parse(row.pubkey) == Some(key) {
            assert SplitLines(lines)[0] == row;
          } else {
            FirstOwnerLater(parse, row, SplitLines(lines[1..]), key, FirstSigner(parse, lines[1..], key));
          }
      }
    }
  }

  /** Looking a key up in a printed list finds the first of its entries, and nothing if it has none. */
  lemma LookupFindsFirst<K(!new)>(parse: string -> Option<K>, rows: seq<Row>, key: K)
    requires Printable(rows)
    ensures FirstOwner(parse, rows, key, Lookup(parse, Print(rows), key))
  {
    PrintedReadsBackIff(rows);
    LookupByRows(parse, Lines(Print(rows)), key);
  }

  /** From registration to verification: in every run of the endpoint, a key registered before the cache's
      validity length ago is found in the text answered, whatever the interleaving. */
  lemma RegisteredKeyIsFound<K(!new)>(validity: nat, states: seq<Cache.State>, id: Cache.RequestId,
                                parse: string -> Option<K>, key: K, i: nat)
    requires Cache.IsRun(validity, states)
    requires var s := states[|states| - 1];
             && id in s.requests && s.requests[id].phase.Answered?
             && Printable(s.requests[id].phase.rows)
             && i < |s.table| && parse(s.table[i].row.pubkey) == Some(key)
             && s.table[i].time + validity < s.requests[id].time
    ensures var s := states[|states| - 1];
            Lookup(parse, Print(s.requests[id].phase.rows), key).Some?
  {
    var s := states[|states| - 1];
    var rows := s.requests[id].phase.rows;
    Cache.AnswersAreFresh(validity, states, id);
    assert Cache.Lists(rows, s.table[i]);
    LookupFindsFirst(parse, rows, key);
  }
}
