/** Parsing of the keyspace section of the store's INFO reply into a map from
    database number to key count. The reply looks like
    `# Keyspace\r\ndb0:keys=3,expires=0,avg_ttl=0\r\n...`: the parser drops
    the first twelve characters, trims line feeds from both ends, splits on
    carriage returns, and reads each line by fixed offsets. */
module Keyspace {
  import opened GoStrings
  import opened GoStrconv

  /** Length of the `# Keyspace\r\n` header that the parser skips. */
  const HeaderLength: nat := 12

  /** The lines of the keyspace section. */
  function KeyspaceLines(reply: string): (lines: seq<string>)
    requires |reply| >= HeaderLength
    ensures |lines| >= 1
  {
    Split(TrimChar(reply[HeaderLength..], '\n'), "\r")
  }

  /** The text of a line before its first `,`. */
  function FirstField(line: string): string
  {
    Split(line, ",")[0]
  }

  /** A line that is skipped: nothing before its first `,`. */
  predicate Skipped(line: string)
  {
    FirstField(line) == ""
  }

  /** A line the parser reads without an index panic: skipped, or its first
      field has a `:`, at least two characters before it and at least five
      between it and the next `:`. */
  predicate LineReadable(line: string)
  {
    Skipped(line) ||
    var parts := Split(FirstField(line), ":");
    |parts| >= 2 && |parts[0]| >= 2 && |parts[1]| >= 5
  }

  predicate LinesReadable(lines: seq<string>)
  {
    forall i :: 0 <= i < |lines| ==> LineReadable(lines[i])
  }

  /** The database number of a line: the text after the first two characters
      of the part before the first `:`, parsed as unsigned, error dropped. */
  function LineDbNo(line: string): (n: nat)
    requires LineReadable(line) && !Skipped(line)
    ensures n <= MaxUint64
  {
    ParseUint(Split(FirstField(line), ":")[0][2..]).value
  }

  /** The key count of a line: the text after the first five characters of
      the part after the first `:`, parsed as signed, error dropped. */
  function LineKeyCount(line: string): (k: int)
    requires LineReadable(line) && !Skipped(line)
    ensures MinInt64 <= k <= MaxInt64
  {
    ParseInt(Split(FirstField(line), ":")[1][5..]).value
  }

  /** The map the parsing loop builds from `lines`: lines are read in order,
      skipped lines leave the map alone, and every other line writes its key
      count under its database number. */
  function Databases(lines: seq<string>): map<nat, int>
    requires LinesReadable(lines)
  {
    if lines == [] then map[]
    else
      var line := lines[|lines| - 1];
      var prior := Databases(lines[..|lines| - 1]);
      if Skipped(line) then prior else prior[LineDbNo(line) := LineKeyCount(line)]
  }

  /** The parsing loop. */
  method GetDatabases(reply: string) returns (databases: map<nat, int>)
    requires |reply| >= HeaderLength && LinesReadable(KeyspaceLines(reply))
    ensures databases == Databases(KeyspaceLines(reply))
  {
    databases := map[];
    var keyspace := TrimChar(reply[HeaderLength..], '\n');
    var keyspaces := Split(keyspace, "\r");
    for i := 0 to |keyspaces|
      invariant LinesReadable(keyspaces[..i])
      invariant databases == Databases(keyspaces[..i])
    {
      var db := keyspaces[i];
      assert keyspaces[..i + 1][..i] == keyspaces[..i];
      var dbKeysParse := Split(db, ",");
      if dbKeysParse[0] == "" {
        continue;
      }
      var dbKeysParsed := Split(dbKeysParse[0], ":");
      var dbNo := ParseUint(dbKeysParsed[0][2..]).value;
      var dbKeySize := ParseInt(dbKeysParsed[1][5..]).value;
      databases := databases[dbNo := dbKeySize];
    }
    assert keyspaces[..|keyspaces|] == keyspaces;
  }

  /** The line is read and writes under database number `n`. */
  predicate Writes(line: string, n: nat)
  {
    LineReadable(line) && !Skipped(line) && LineDbNo(line) == n
  }

  /** A database number is in the map exactly when some read line names it. */
  lemma {:induction false} DatabasesKeys(lines: seq<string>, n: nat)
    requires LinesReadable(lines)
    ensures n in Databases(lines) <==> exists i :: 0 <= i < |lines| && Writes(lines[i], n)
  {
    if lines != [] {
      var prefix := lines[..|lines| - 1];
      assert LinesReadable(prefix);
      DatabasesKeys(prefix, n);
      if n in Databases(lines) && !Writes(lines[|lines| - 1], n) {
        var i :| 0 <= i < |prefix| && Writes(prefix[i], n);
        assert lines[i] == prefix[i];
      }
    }
  }

  /** The last line that names a database number decides its key count. */
  lemma {:induction false} DatabasesLastLineWins(lines: seq<string>, i: nat)
    requires LinesReadable(lines) && i < |lines| && !Skipped(lines[i])
    requires forall j :: i < j < |lines| ==> !Writes(lines[j], LineDbNo(lines[i]))
    ensures LineDbNo(lines[i]) in Databases(lines)
    ensures Databases(lines)[LineDbNo(lines[i])] == LineKeyCount(lines[i])
  {
    if i < |lines| - 1 {
      var prefix := lines[..|lines| - 1];
      assert LinesReadable(prefix);
      assert prefix[i] == lines[i];
      assert !Writes(lines[|lines| - 1], LineDbNo(lines[i]));
      DatabasesLastLineWins(prefix, i);
    }
  }

  /** The line the store prints for database `n` holding `k` keys, followed
      by its remaining fields. */
  function EntryLine(n: nat, k: nat, rest: string): string
  {
    "db" + DecimalString(n) + ":keys=" + DecimalString(k) + "," + rest
  }

  /** A line `a:b,rest` with no `,` or `:` in `a` and `b` is read by parsing
      `a` after its second character and `b` after its fifth. */
  lemma LineParts(a: string, b: string, rest: string)
    requires ',' !in a && ':' !in a && ',' !in b && ':' !in b
    requires |a| >= 2 && |b| >= 5
    ensures var line := a + ":" + b + "," + rest;
      LineReadable(line) && !Skipped(line) &&
      LineDbNo(line) == ParseUint(a[2..]).value && LineKeyCount(line) == ParseInt(b[5..]).value
  {
    assert ',' !in a + ":" + b;
    SplitAtChar(a + ":" + b, ',', rest);
    SplitWithoutChar(b, ':');
    SplitAtChar(a, ':', b);
  }

  lemma DigitsFree(n: nat)
    ensures ',' !in DecimalString(n) && ':' !in DecimalString(n)
  {
    var d := DecimalString(n);
    assert forall k :: 0 <= k < |d| ==> IsDigit(d[k]);
  }

  /** The fields of an entry line, perhaps preceded by a line feed. */
  lemma EntryParts(lead: string, n: nat, k: nat, rest: string)
    requires lead == "" || lead == "\n"
    ensures var a := lead + "db" + DecimalString(n);
      var b := "keys=" + DecimalString(k);
      lead + EntryLine(n, k, rest) == a + ":" + b + "," + rest &&
      ',' !in a && ':' !in a && ',' !in b && ':' !in b
  {
    DigitsFree(n);
    DigitsFree(k);
  }

  /** How an entry line, perhaps preceded by a line feed, is read: the
      database number from the text after the first two characters, the key
      count from the decimal text. */
  lemma EntryFields(lead: string, n: nat, k: nat, rest: string)
    requires lead == "" || lead == "\n"
    ensures var line := lead + EntryLine(n, k, rest);
      LineReadable(line) && !Skipped(line) &&
      LineDbNo(line) == ParseUint((lead + "db" + DecimalString(n))[2..]).value &&
      LineKeyCount(line) == ParseInt(DecimalString(k)).value
  {
    var a := lead + "db" + DecimalString(n);
    var b := "keys=" + DecimalString(k);
    EntryParts(lead, n, k, rest);
    LineParts(a, b, rest);
    assert b[5..] == DecimalString(k);
  }

  /** An entry line is read back as its database number and key count. */
  lemma EntryLineReadBack(n: nat, k: nat, rest: string)
    requires n <= MaxUint64 && k <= MaxInt64
    ensures var line := EntryLine(n, k, rest);
      LineReadable(line) && !Skipped(line) && LineDbNo(line) == n && LineKeyCount(line) == k
  {
    EntryFields("", n, k, rest);
    assert "" + EntryLine(n, k, rest) == EntryLine(n, k, rest);
    assert ("" + "db" + DecimalString(n))[2..] == DecimalString(n);
    ParseUintDecimal(n);
    ParseIntDecimal(k);
  }

  /** Every line after the first keeps the line feed of the line break before
      it, so its two skipped characters are the line feed and the `d` of
      `db`: the number text starts with `b`, fails to parse, and the entry
      lands under database 0 whatever its real number. */
  lemma EntryAfterLineFeedIsDbZero(n: nat, k: nat, rest: string)
    requires k <= MaxInt64
    ensures var line := "\n" + EntryLine(n, k, rest);
      LineReadable(line) && !Skipped(line) && LineDbNo(line) == 0 && LineKeyCount(line) == k
  {
    EntryFields("\n", n, k, rest);
    var number := ("\n" + "db" + DecimalString(n))[2..];
    assert number[0] == 'b';
    ScanBadFirst(number);
    ParseIntDecimal(k);
  }

  /** A reply of two lines ending in line breaks: the line feed of the first
      break stays at the head of the second line, and the final break leaves
      an empty last line. */
  lemma KeyspaceOfTwo(header: string, l0: string, l1: string)
    requires |header| == HeaderLength
    requires '\r' !in l0 && '\n' !in l0 && '\r' !in l1 && '\n' !in l1
    ensures KeyspaceLines(header + l0 + "\r\n" + l1 + "\r\n") == [l0, "\n" + l1, ""]
  {
    var reply := header + l0 + "\r\n" + l1 + "\r\n";
    var body := l0 + "\r\n" + l1 + "\r\n";
    assert reply[HeaderLength..] == body;
    var kept := l0 + "\r" + ("\n" + l1) + "\r" + "";
    assert TrimChar(body, '\n') == kept by {
      assert body[0] != '\n' by {
        if l0 != [] { assert body[0] == l0[0]; }
      }
      assert LeadingRun(body, '\n') == 0;
      assert body[..|body| - 1] == kept;
      assert TrailingRun(body, '\n') == 1;
    }
    assert '\r' !in "\n" + l1;
    SplitThree(l0, "\n" + l1, "", '\r');
  }

  lemma EntryLineFree(n: nat, k: nat, rest: string)
    requires '\r' !in rest && '\n' !in rest
    ensures '\r' !in EntryLine(n, k, rest) && '\n' !in EntryLine(n, k, rest)
  {
    var dn := DecimalString(n);
    var dk := DecimalString(k);
    assert forall i :: 0 <= i < |dn| ==> IsDigit(dn[i]);
    assert forall i :: 0 <= i < |dk| ==> IsDigit(dk[i]);
  }

  /** Two read lines and a skipped one write their entries in order. */
  lemma DatabasesOfThree(x: string, y: string, z: string)
    requires LineReadable(x) && !Skipped(x) && LineReadable(y) && !Skipped(y) && Skipped(z)
    ensures LinesReadable([x, y, z])
    ensures Databases([x, y, z]) == map[LineDbNo(x) := LineKeyCount(x)][LineDbNo(y) := LineKeyCount(y)]
  {
    var lines := [x, y, z];
    assert Databases([x]) == map[LineDbNo(x) := LineKeyCount(x)] by {
      assert [x][..0] == [];
    }
    assert Databases([x, y]) == Databases([x])[LineDbNo(y) := LineKeyCount(y)] by {
      assert [x, y][..1] == [x];
    }
    assert lines[..2] == [x, y];
  }

  /** For a store with two databases `n0` and `n1`, the parser records the
      first correctly and files the second under database 0, replacing the
      first when `n0` is 0; database `n1` itself is never recorded unless it
      is 0. */
  lemma TwoDatabases(header: string, n0: nat, k0: nat, r0: string, n1: nat, k1: nat, r1: string)
    requires |header| == HeaderLength
    requires n0 <= MaxUint64 && k0 <= MaxInt64 && k1 <= MaxInt64
    requires '\r' !in r0 && '\n' !in r0 && '\r' !in r1 && '\n' !in r1
    ensures var reply := header + EntryLine(n0, k0, r0) + "\r\n" + EntryLine(n1, k1, r1) + "\r\n";
      LinesReadable(KeyspaceLines(reply)) &&
      Databases(KeyspaceLines(reply)) == map[n0 := k0][0 := k1]
  {
    var l0 := EntryLine(n0, k0, r0);
    var l1 := EntryLine(n1, k1, r1);
    EntryLineFree(n0, k0, r0);
    EntryLineFree(n1, k1, r1);
    KeyspaceOfTwo(header, l0, l1);
    EntryLineReadBack(n0, k0, r0);
    EntryAfterLineFeedIsDbZero(n1, k1, r1);
    assert Skipped("") by {
      SplitWithoutChar("", ',');
    }
    DatabasesOfThree(l0, "\n" + l1, "");
  }
}
