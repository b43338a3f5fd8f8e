/**
 * The matrix text format, read as a sequence of lines:
 *
 *   rows=<integer>
 *   cols=<integer>
 *   (row,col,value)
 *   ...
 *
 * Lines are stripped of surrounding whitespace and blank ones dropped. The
 * header lines contribute whatever follows their first '='; their prefix is
 * not checked. Each remaining line must be wrapped in parentheses and hold
 * exactly three comma-separated integers. Positions are not checked against
 * the header, a value of 0 is kept, and a later line for the same position
 * replaces an earlier one.
 */
module LineFormat {
  import opened Wrappers
  import opened Text
  import opened Algebra

  /** The ways loading a matrix can fail. */
  datatype FormatError =
    | InsufficientData   // fewer than two non-blank lines
    | BadHeader          // a header line without '=', or with no integer between its first '=' and the next
    | WrongFormat        // an element line not wrapped in parentheses
    | BadElement         // an element line that is not exactly three integers

  /** One element line: a position and the value stored there. */
  type Entry = (Key, int)

  /** A whole file that parsed: the header dimensions and the element lines in order. */
  datatype Parsed = Parsed(rows: int, cols: int, entries: seq<Entry>)

  /** The element lines read before the first bad one, and that line's error if there is one. */
  datatype Scan = Scan(entries: seq<Entry>, failure: Option<FormatError>)

  const Parens: set<char> := {'(', ')'}

  /** A line that is not blank and has no whitespace at either end. */
  predicate IsStripped(line: string)
  {
    line != [] && line[0] !in Whitespace && line[|line| - 1] !in Whitespace
  }

  /** The input lines stripped of surrounding whitespace, blank ones dropped, in order. */
  function NonBlankLines(input: seq<string>): (lines: seq<string>)
    ensures |lines| <= |input|
    ensures forall i :: 0 <= i < |lines| ==> IsStripped(lines[i])
  {
    if input == [] then []
    else
      var line := Strip(input[0], Whitespace);
      (if line == [] then [] else [line]) + NonBlankLines(input[1..])
  }

  /** Cleaning the lines of two runs one after the other is cleaning each run and joining the results. */
  lemma {:induction false} NonBlankLinesConcat(a: seq<string>, b: seq<string>)
    ensures NonBlankLines(a + b) == NonBlankLines(a) + NonBlankLines(b)
  {
    if a == [] {
      assert a + b == b;
    } else {
      assert (a + b)[0] == a[0];
      assert (a + b)[1..] == a[1..] + b;
      NonBlankLinesConcat(a[1..], b);
    }
  }

  /** One line is dropped when it strips to nothing and kept, stripped, otherwise. */
  lemma NonBlankLinesOne(line: string)
    ensures NonBlankLines([line]) == if Strip(line, Whitespace) == [] then [] else [Strip(line, Whitespace)]
  {
    assert [line][1..] == [];
  }

  /** Lines that are already stripped and non-blank pass through unchanged. */
  lemma {:induction false} NonBlankLinesUnchanged(lines: seq<string>)
    requires forall i :: 0 <= i < |lines| ==> IsStripped(lines[i])
    ensures NonBlankLines(lines) == lines
  {
    if lines != [] {
      StripUnchanged(lines[0], Whitespace);
      NonBlankLinesUnchanged(lines[1..]);
      assert [lines[0]] + lines[1..] == lines;
    }
  }

  /** int(line.split('=')[1]): the integer between the first '=' and the next one, if any. */
  function HeaderValue(line: string): (value: Option<int>)
    ensures '=' !in line ==> value == None
  {
    var parts := SplitOn(line, '=');
    if |parts| < 2 then None else ParseInt(parts[1])
  }

  /** An element line "(row,col,value)": parentheses first, then exactly three integers. */
  function ParseElement(line: string): (r: Result<Entry, FormatError>)
    ensures r == Err(WrongFormat) <==> !(line != [] && line[0] == '(' && line[|line| - 1] == ')')
    ensures r.Err? ==> r.error == WrongFormat || r.error == BadElement
    ensures r.Ok? ==> |SplitOn(Strip(line, Parens), ',')| == 3
  {
    if !(line != [] && line[0] == '(' && line[|line| - 1] == ')') then Err(WrongFormat)
    else
      var fields := SplitOn(Strip(line, Parens), ',');
      if |fields| != 3 then Err(BadElement)
      else
        match (ParseInt(fields[0]), ParseInt(fields[1]), ParseInt(fields[2]))
        case (Some(row), Some(col), Some(value)) => Ok(((row, col), value))
        case _ => Err(BadElement)
  }

  /**
   * Reads element lines in order until one fails. The entries are those of
   * the leading lines that parse, one per line; on failure the line right
   * after them is the one that failed, with that line's error.
   */
  function ScanElements(lines: seq<string>): (s: Scan)
    ensures |s.entries| <= |lines|
    ensures s.failure.None? ==> |s.entries| == |lines|
    ensures s.failure.Some? ==> |s.entries| < |lines|
  {
    if lines == [] then Scan([], None)
    else
      var prefix := ScanElements(lines[..|lines| - 1]);
      if prefix.failure.Some? then prefix
      else
        match ParseElement(lines[|lines| - 1])
        case Ok(e) => Scan(prefix.entries + [e], None)
        case Err(error) => Scan(prefix.entries, Some(error))
  }

  /** Every entry a scan reports is the parse of the line at its index. */
  lemma {:induction false} ScanEntriesRead(lines: seq<string>)
    ensures var s := ScanElements(lines);
      forall i :: 0 <= i < |s.entries| ==> ParseElement(lines[i]) == Ok(s.entries[i])
  {
    if lines != [] {
      var prefix := lines[..|lines| - 1];
      ScanEntriesRead(prefix);
      var p, s := ScanElements(prefix), ScanElements(lines);
      var last := ParseElement(lines[|lines| - 1]);
      var grown := p.failure.None? && last.Ok?;
      assert s.entries == if grown then p.entries + [last.value] else p.entries;
      forall i | 0 <= i < |s.entries| ensures ParseElement(lines[i]) == Ok(s.entries[i]) {
        if i < |p.entries| {
          assert s.entries[i] == p.entries[i] && lines[i] == prefix[i];
        } else {
          assert grown && i == |lines| - 1 && s.entries[i] == last.value;
        }
      }
    }
  }

  /** A failed scan reports the error of the first line that did not parse, the one after its entries. */
  lemma {:induction false} ScanFailureRead(lines: seq<string>)
    ensures var s := ScanElements(lines);
      s.failure.Some? ==> ParseElement(lines[|s.entries|]) == Err(s.failure.value)
  {
    if lines != [] {
      var prefix := lines[..|lines| - 1];
      ScanFailureRead(prefix);
      var p, s := ScanElements(prefix), ScanElements(lines);
      if p.failure.Some? {
        assert prefix[|p.entries|] == lines[|p.entries|];
      }
    }
  }

  /** Once a line has failed, the lines after it are not read. */
  lemma {:induction false} ScanStopsAtFailure(lines: seq<string>, n: nat)
    requires n <= |lines| && ScanElements(lines[..n]).failure.Some?
    ensures ScanElements(lines) == ScanElements(lines[..n])
    decreases |lines| - n
  {
    if n < |lines| {
      assert lines[..n + 1][..n] == lines[..n];
      assert ScanElements(lines[..n + 1]) == ScanElements(lines[..n]);
      ScanStopsAtFailure(lines, n + 1);
    } else {
      assert lines[..n] == lines;
    }
  }

  /** A line that parses, after lines that all parsed, adds its entry at the end. */
  lemma ScanSnoc(lines: seq<string>, line: string, e: Entry)
    requires ScanElements(lines).failure.None? && ParseElement(line) == Ok(e)
    ensures ScanElements(lines + [line]) == Scan(ScanElements(lines).entries + [e], None)
  {
    assert (lines + [line])[..|lines|] == lines;
  }

  /** Reading one more line after lines that all parsed either adds its entry or records its error. */
  lemma ScanStep(lines: seq<string>, i: nat)
    requires i < |lines| && ScanElements(lines[..i]).failure.None?
    ensures ParseElement(lines[i]).Ok? ==>
      ScanElements(lines[..i + 1]) == Scan(ScanElements(lines[..i]).entries + [ParseElement(lines[i]).value], None)
    ensures ParseElement(lines[i]).Err? ==>
      ScanElements(lines) == Scan(ScanElements(lines[..i]).entries, Some(ParseElement(lines[i]).error))
  {
    assert lines[..i + 1][..i] == lines[..i];
    if ParseElement(lines[i]).Err? {
      ScanStopsAtFailure(lines, i + 1);
    }
  }

  /** load_from_file's parse of a whole file, as a value. */
  function ParseMatrix(input: seq<string>): (r: Result<Parsed, FormatError>)
    ensures |NonBlankLines(input)| < 2 ==> r == Err(InsufficientData)
    ensures r.Ok? ==> var lines := NonBlankLines(input);
      HeaderValue(lines[0]) == Some(r.value.rows) && HeaderValue(lines[1]) == Some(r.value.cols) &&
      |r.value.entries| == |lines| - 2
  {
    var lines := NonBlankLines(input);
    if |lines| < 2 then Err(InsufficientData)
    else
      match (HeaderValue(lines[0]), HeaderValue(lines[1]))
      case (None, _) => Err(BadHeader)
      case (_, None) => Err(BadHeader)
      case (Some(rows), Some(cols)) =>
        var scan := ScanElements(lines[2..]);
        if scan.failure.Some? then Err(scan.failure.value) else Ok(Parsed(rows, cols, scan.entries))
  }

  /**
   * What each outcome of ParseMatrix says about the lines: a header that is
   * not an integer is a bad header; on success every entry is the parse of
   * its element line; and an element failure is the error of the first
   * element line that does not parse, every line before it parsing.
   */
  lemma ParseMatrixRead(input: seq<string>)
    requires |NonBlankLines(input)| >= 2
    ensures var lines, r := NonBlankLines(input), ParseMatrix(input);
      (HeaderValue(lines[0]).None? || HeaderValue(lines[1]).None?) ==> r == Err(BadHeader)
    ensures var lines, r := NonBlankLines(input), ParseMatrix(input);
      r.Ok? ==> forall i :: 0 <= i < |r.value.entries| ==> ParseElement(lines[i + 2]) == Ok(r.value.entries[i])
    ensures var lines, r := NonBlankLines(input), ParseMatrix(input);
      var n := |ScanElements(lines[2..]).entries|;
      HeaderValue(lines[0]).Some? && HeaderValue(lines[1]).Some? && r.Err? ==>
        n + 2 < |lines| && ParseElement(lines[n + 2]) == Err(r.error) &&
        forall i :: 2 <= i < n + 2 ==> ParseElement(lines[i]).Ok?
  {
    var lines := NonBlankLines(input);
    ScanEntriesRead(lines[2..]);
    ScanFailureRead(lines[2..]);
  }

  /** The stored entries element lines leave behind: each line writes its value at its position, in order. */
  function EntryMap(es: seq<Entry>): (m: map<Key, int>)
    ensures es != [] ==> es[|es| - 1].0 in m && m[es[|es| - 1].0] == es[|es| - 1].1
  {
    if es == [] then map[] else EntryMap(es[..|es| - 1])[es[|es| - 1].0 := es[|es| - 1].1]
  }

  /** After the element lines es, a position is stored exactly when some line names it. */
  lemma {:induction false} EntryMapKeys(es: seq<Entry>)
    ensures forall k :: k in EntryMap(es) <==> exists i :: 0 <= i < |es| && es[i].0 == k
  {
    if es != [] {
      var prefix := es[..|es| - 1];
      EntryMapKeys(prefix);
      forall k | k in EntryMap(es) ensures exists i :: 0 <= i < |es| && es[i].0 == k {
        if k != es[|es| - 1].0 {
          assert k in EntryMap(prefix);
          var i :| 0 <= i < |prefix| && prefix[i].0 == k;
          assert es[i].0 == k;
        }
      }
      forall k | exists i :: 0 <= i < |es| && es[i].0 == k ensures k in EntryMap(es) {
        var i :| 0 <= i < |es| && es[i].0 == k;
        if i < |prefix| {
          assert prefix[i].0 == k;
        }
      }
    }
  }

  /** A stored position holds the value of the last line that names it, 0 included. */
  lemma {:induction false} EntryMapLookup(es: seq<Entry>)
    ensures forall i :: 0 <= i < |es| && (forall j :: i < j < |es| ==> es[j].0 != es[i].0) ==>
      es[i].0 in EntryMap(es) && EntryMap(es)[es[i].0] == es[i].1
  {
    if es != [] {
      var prefix := es[..|es| - 1];
      EntryMapLookup(prefix);
      forall i | 0 <= i < |es| - 1 && (forall j :: i < j < |es| ==> es[j].0 != es[i].0)
        ensures es[i].0 in EntryMap(es) && EntryMap(es)[es[i].0] == es[i].1
      {
        assert prefix[i] == es[i];
        assert forall j :: i < j < |prefix| ==> prefix[j].0 != prefix[i].0 by {
          forall j | i < j < |prefix| ensures prefix[j].0 != prefix[i].0 {
            assert prefix[j] == es[j];
          }
        }
      }
    }
  }

  /** One more entry overwrites its position, also when the entries are written over existing ones. */
  lemma EntryMapSnoc(m: map<Key, int>, es: seq<Entry>, e: Entry)
    ensures EntryMap(es + [e]) == EntryMap(es)[e.0 := e.1]
    ensures m + EntryMap(es + [e]) == (m + EntryMap(es))[e.0 := e.1]
  {
    assert (es + [e])[..|es|] == es;
    var merged, merged' := m + EntryMap(es), m + EntryMap(es + [e]);
    assert merged'.Keys == merged.Keys + {e.0};
  }

  // ----- Writing the format -----

  /** "(row,col,value)" for one entry. */
  function FormatEntry(e: Entry): string
  {
    "(" + JoinWith([IntToString(e.0.0), IntToString(e.0.1), IntToString(e.1)], ',') + ")"
  }

  /** One element line per entry, in order. */
  function FormatEntries(es: seq<Entry>): seq<string>
  {
    if es == [] then [] else FormatEntries(es[..|es| - 1]) + [FormatEntry(es[|es| - 1])]
  }

  /** The lines of a file holding the given dimensions and element lines. */
  function FormatLines(rows: int, cols: int, es: seq<Entry>): seq<string>
  {
    ["rows=" + IntToString(rows), "cols=" + IntToString(cols)] + FormatEntries(es)
  }

  /** Every character IntToString writes is '-' or a digit. */
  lemma IntToStringHasNo(n: int, c: char)
    requires c != '-' && !IsDigit(c)
    ensures c !in IntToString(n)
  {
    IntToStringShape(n);
  }

  /** An element line begins with '(' and ends with ')'. */
  lemma FormatEntryShape(e: Entry)
    ensures var line := FormatEntry(e); line != [] && line[0] == '(' && line[|line| - 1] == ')'
  {
    var inner := JoinWith([IntToString(e.0.0), IntToString(e.0.1), IntToString(e.1)], ',');
    assert FormatEntry(e) == ['('] + inner + [')'];
  }

  /**
   * A line "(x,y,z)" of three comma-free fields, the first not starting and
   * the last not ending with a parenthesis (an empty field included), is the
   * entry of the three integers when each field is one, and a bad element
   * otherwise.
   */
  lemma ParseElementFields(x: string, y: string, z: string)
    requires ',' !in x && ',' !in y && ',' !in z
    requires (x == [] || x[0] !in Parens) && (z == [] || z[|z| - 1] !in Parens)
    ensures var r := ParseElement("(" + x + "," + y + "," + z + ")");
      if ParseInt(x).Some? && ParseInt(y).Some? && ParseInt(z).Some?
      then r == Ok(((ParseInt(x).value, ParseInt(y).value), ParseInt(z).value))
      else r == Err(BadElement)
  {
    var line, inner := "(" + x + "," + y + "," + z + ")", JoinWith([x, y, z], ',');
    assert line == ['('] + inner + [')'] && Strip(line, Parens) == inner by {
      JoinThree(x, y, z, ',');
      assert inner[0] == if x == [] then ',' else x[0];
      assert inner[|inner| - 1] == if z == [] then ',' else z[|z| - 1];
      StripWrapped(inner, '(', ')', Parens);
    }
    assert SplitOn(inner, ',') == [x, y, z] by {
      SplitJoin([x, y, z], ',');
    }
  }

  /** An element line that FormatEntry writes parses back to its entry. */
  lemma ParseFormatEntry(e: Entry)
    ensures ParseElement(FormatEntry(e)) == Ok(e)
  {
    var x, y, z := IntToString(e.0.0), IntToString(e.0.1), IntToString(e.1);
    IntToStringShape(e.0.0);
    IntToStringShape(e.1);
    IntToStringHasNo(e.0.0, ',');
    IntToStringHasNo(e.0.1, ',');
    IntToStringHasNo(e.1, ',');
    assert FormatEntry(e) == "(" + x + "," + y + "," + z + ")" by {
      JoinThree(x, y, z, ',');
    }
    ParseIntOfIntToString(e.0.0);
    ParseIntOfIntToString(e.0.1);
    ParseIntOfIntToString(e.1);
    ParseElementFields(x, y, z);
  }

  /**
   * A header line "name=" + v, with neither part holding '=', yields int(v),
   * and so does one with a further '=' and any text after it.
   */
  lemma HeaderValueOfText(name: string, v: string, rest: string)
    requires '=' !in name && '=' !in v
    ensures HeaderValue(name + "=" + v) == ParseInt(v)
    ensures HeaderValue(name + "=" + v + "=" + rest) == ParseInt(v)
  {
    SplitOnSecond(name, v, rest, '=');
  }

  /** A header line "name=" + str(n) yields n, whatever the name, provided it has no '='. */
  lemma HeaderValueOfFormat(name: string, n: int)
    requires '=' !in name
    ensures HeaderValue(name + "=" + IntToString(n)) == Some(n)
  {
    IntToStringHasNo(n, '=');
    assert name + "=" + IntToString(n) == JoinWith([name, IntToString(n)], '=');
    SplitJoin([name, IntToString(n)], '=');
    ParseIntOfIntToString(n);
  }

  /** FormatEntries writes one line per entry, each its FormatEntry. */
  lemma {:induction false} FormatEntriesAt(es: seq<Entry>)
    ensures |FormatEntries(es)| == |es|
    ensures forall i :: 0 <= i < |es| ==> FormatEntries(es)[i] == FormatEntry(es[i])
  {
    if es != [] {
      FormatEntriesAt(es[..|es| - 1]);
    }
  }

  /** Lines that each parse to the entry at the same index scan to exactly those entries. */
  lemma {:induction false} ScanParsedLines(lines: seq<string>, es: seq<Entry>)
    requires |lines| == |es|
    requires forall i :: 0 <= i < |lines| ==> ParseElement(lines[i]) == Ok(es[i])
    ensures ScanElements(lines) == Scan(es, None)
  {
    if lines != [] {
      var n := |lines| - 1;
      forall i | 0 <= i < n ensures ParseElement(lines[..n][i]) == Ok(es[..n][i]) {
        assert lines[..n][i] == lines[i] && es[..n][i] == es[i];
      }
      ScanParsedLines(lines[..n], es[..n]);
      ScanSnoc(lines[..n], lines[n], es[n]);
      assert lines[..n] + [lines[n]] == lines;
      assert es[..n] + [es[n]] == es;
    }
  }

  /** The element lines FormatEntries writes scan back to their entries. */
  lemma ScanFormatted(es: seq<Entry>)
    ensures ScanElements(FormatEntries(es)) == Scan(es, None)
  {
    var lines := FormatEntries(es);
    FormatEntriesAt(es);
    forall i | 0 <= i < |es| ensures ParseElement(lines[i]) == Ok(es[i]) {
      ParseFormatEntry(es[i]);
    }
    ScanParsedLines(lines, es);
  }

  /** A header line, its name and '=' followed by str(n), is non-blank and already stripped. */
  lemma HeaderLineStripped(prefix: string, n: int)
    requires prefix != [] && prefix[0] !in Whitespace
    ensures IsStripped(prefix + IntToString(n))
  {
    IntToStringShape(n);
  }

  /** Every element line FormatEntries writes is non-blank and already stripped. */
  lemma FormatEntriesStripped(es: seq<Entry>)
    ensures forall i :: 0 <= i < |FormatEntries(es)| ==> IsStripped(FormatEntries(es)[i])
  {
    FormatEntriesAt(es);
    forall i | 0 <= i < |es| ensures IsStripped(FormatEntry(es[i])) {
      FormatEntryShape(es[i]);
    }
  }

  /** Two runs of stripped lines put together are stripped lines. */
  lemma StrippedConcat(a: seq<string>, b: seq<string>)
    requires forall i :: 0 <= i < |a| ==> IsStripped(a[i])
    requires forall i :: 0 <= i < |b| ==> IsStripped(b[i])
    ensures forall i :: 0 <= i < |a + b| ==> IsStripped((a + b)[i])
  {
  }

  /** Every line FormatLines writes is non-blank and already stripped. */
  lemma FormatLinesStripped(rows: int, cols: int, es: seq<Entry>)
    ensures forall i :: 0 <= i < |FormatLines(rows, cols, es)| ==> IsStripped(FormatLines(rows, cols, es)[i])
  {
    var head, body := ["rows=" + IntToString(rows), "cols=" + IntToString(cols)], FormatEntries(es);
    assert IsStripped(head[0]) && IsStripped(head[1]) by {
      HeaderLineStripped("rows=", rows);
      HeaderLineStripped("cols=", cols);
    }
    assert forall i :: 0 <= i < |body| ==> IsStripped(body[i]) by {
      FormatEntriesStripped(es);
    }
    StrippedConcat(head, body);
  }

  /** A parse succeeds when both headers are integers and every element line parses. */
  lemma ParseMatrixSucceeds(input: seq<string>, rows: int, cols: int, es: seq<Entry>)
    requires var lines := NonBlankLines(input);
      |lines| >= 2 && HeaderValue(lines[0]) == Some(rows) && HeaderValue(lines[1]) == Some(cols) &&
      ScanElements(lines[2..]) == Scan(es, None)
    ensures ParseMatrix(input) == Ok(Parsed(rows, cols, es))
  {
  }

  /** The header values FormatLines writes read back as the dimensions. */
  lemma FormatLinesHeaders(rows: int, cols: int, es: seq<Entry>)
    ensures HeaderValue(FormatLines(rows, cols, es)[0]) == Some(rows)
    ensures HeaderValue(FormatLines(rows, cols, es)[1]) == Some(cols)
  {
    assert "rows" + "=" == "rows=";
    assert "cols" + "=" == "cols=";
    HeaderValueOfFormat("rows", rows);
    HeaderValueOfFormat("cols", cols);
  }

  /** Round trip: the lines FormatLines writes parse back to the same dimensions and entries. */
  lemma ParseFormatLines(rows: int, cols: int, es: seq<Entry>)
    ensures ParseMatrix(FormatLines(rows, cols, es)) == Ok(Parsed(rows, cols, es))
  {
    var lines := FormatLines(rows, cols, es);
    assert NonBlankLines(lines) == lines by {
      FormatLinesStripped(rows, cols, es);
      NonBlankLinesUnchanged(lines);
    }
    assert HeaderValue(lines[0]) == Some(rows) && HeaderValue(lines[1]) == Some(cols) by {
      FormatLinesHeaders(rows, cols, es);
    }
    assert ScanElements(lines[2..]) == Scan(es, None) by {
      assert lines[2..] == FormatEntries(es);
      ScanFormatted(es);
    }
    ParseMatrixSucceeds(lines, rows, cols, es);
  }

  /** Entries with pairwise different positions, listing exactly the entries of m. */
  ghost predicate Enumerates(es: seq<Entry>, m: map<Key, int>)
  {
    (forall i, j :: 0 <= i < j < |es| ==> es[i].0 != es[j].0) &&
    (forall i :: 0 <= i < |es| ==> es[i].0 in m && m[es[i].0] == es[i].1) &&
    (forall k :: k in m ==> exists i :: 0 <= i < |es| && es[i].0 == k)
  }

  /** Every stored map can be listed one entry per position. */
  lemma {:induction false} EnumerationExists(m: map<Key, int>) returns (es: seq<Entry>)
    ensures Enumerates(es, m)
    decreases |m|
  {
    if m == map[] {
      es := [];
    } else {
      var k :| k in m;
      var rest := EnumerationExists(m - {k});
      es := rest + [(k, m[k])];
      forall i | 0 <= i < |rest| ensures es[i] == rest[i] && es[i].0 in m - {k} {
      }
      forall i, j | 0 <= i < j < |es| ensures es[i].0 != es[j].0 {
        if j < |rest| {
          assert rest[i].0 != rest[j].0;
        }
      }
      forall i | 0 <= i < |es| ensures es[i].0 in m && m[es[i].0] == es[i].1 {
        if i < |rest| {
          assert rest[i].0 in m - {k};
        }
      }
      forall k' | k' in m ensures exists i :: 0 <= i < |es| && es[i].0 == k' {
        if k' == k {
          assert es[|es| - 1].0 == k';
        } else {
          assert k' in m - {k};
          var i :| 0 <= i < |rest| && rest[i].0 == k';
          assert es[i].0 == k';
        }
      }
    }
  }

  /**
   * Round trip of a whole matrix: writing a matrix's dimensions and its
   * entries, one line per stored position in any order, and parsing the
   * lines back gives the same dimensions and the same stored entries.
   */
  lemma ParseFormattedMatrix(rows: int, cols: int, m: map<Key, int>, es: seq<Entry>)
    requires Enumerates(es, m)
    ensures ParseMatrix(FormatLines(rows, cols, es)).Ok?
    ensures var p := ParseMatrix(FormatLines(rows, cols, es)).value;
      p.rows == rows && p.cols == cols && EntryMap(p.entries) == m
  {
    ParseFormatLines(rows, cols, es);
    EnumerationMap(es, m);
  }

  /** Entries that enumerate m, read in order, build m back. */
  lemma EnumerationMap(es: seq<Entry>, m: map<Key, int>)
    requires Enumerates(es, m)
    ensures EntryMap(es) == m
  {
    EntryMapKeys(es);
    EntryMapLookup(es);
    var e := EntryMap(es);
    forall k | k in e ensures k in m && e[k] == m[k] {
      var i :| 0 <= i < |es| && es[i].0 == k;
      assert forall j :: i < j < |es| ==> es[j].0 != es[i].0;
    }
    forall k | k in m ensures k in e {
      var i :| 0 <= i < |es| && es[i].0 == k;
    }
  }

  // ----- Examples -----

  /** A file with two diagonal entries loads them. */
  lemma ExampleDiagonal()
    ensures ParseMatrix(["rows=2", "cols=2", "(0,0,1)", "(1,1,2)"]) ==
            Ok(Parsed(2, 2, [((0, 0), 1), ((1, 1), 2)]))
  {
    var es := [((0, 0), 1), ((1, 1), 2)];
    assert FormatEntry(es[0]) == "(0,0,1)";
    assert FormatEntry(es[1]) == "(1,1,2)";
    FormatEntriesAt(es);
    assert FormatEntries(es) == ["(0,0,1)", "(1,1,2)"];
    assert "rows=" + IntToString(2) == "rows=2";
    assert "cols=" + IntToString(2) == "cols=2";
    assert FormatLines(2, 2, es) == ["rows=2", "cols=2", "(0,0,1)", "(1,1,2)"];
    ParseFormatLines(2, 2, es);
  }

  /** A position outside the declared dimensions, and a value of 0, are both accepted. */
  lemma ExampleUncheckedEntries()
    ensures ParseMatrix(["rows=2", "cols=2", "(5,0,3)", "(0,0,0)"]) ==
            Ok(Parsed(2, 2, [((5, 0), 3), ((0, 0), 0)]))
  {
    var es := [((5, 0), 3), ((0, 0), 0)];
    assert FormatEntry(es[0]) == "(5,0,3)";
    assert FormatEntry(es[1]) == "(0,0,0)";
    FormatEntriesAt(es);
    assert FormatEntries(es) == ["(5,0,3)", "(0,0,0)"];
    assert "rows=" + IntToString(2) == "rows=2";
    assert "cols=" + IntToString(2) == "cols=2";
    assert FormatLines(2, 2, es) == ["rows=2", "cols=2", "(5,0,3)", "(0,0,0)"];
    ParseFormatLines(2, 2, es);
  }

  /**
   * A header's name is not checked and only the text up to a second '=' is
   * read; a header without '=' is rejected.
   */
  lemma ExampleHeaders()
    ensures HeaderValue("size=3") == Some(3)
    ensures HeaderValue("rows=1=2") == Some(1)
    ensures HeaderValue("rows") == None
  {
    assert IntToString(3) == "3";
    assert "size" + "=" + IntToString(3) == "size=3";
    HeaderValueOfFormat("size", 3);
    assert "rows=1=2" == JoinWith(["rows", "1", "2"], '=');
    SplitJoin(["rows", "1", "2"], '=');
    assert IntToString(1) == "1";
    ParseIntOfIntToString(1);
    SplitOnPiece("rows", [], '=');
  }

  /** A header value is int() of its text, so padding and a '+' sign are accepted. */
  lemma ExampleHeaderPadded()
    ensures HeaderValue("rows= +7") == Some(7)
  {
    assert ParseInt(" +7") == Some(7) by {
      assert Strip(" +7", IntWhitespace) == "+7" by {
        assert StripLeft(" +7", IntWhitespace) == "+7";
        StripUnchanged("+7", IntWhitespace);
      }
    }
    HeaderValueOfText("rows", " +7", []);
    assert "rows" + "=" + " +7" == "rows= +7";
  }

  /** Letters after the '=' are not an integer. */
  lemma ExampleHeaderLetters()
    ensures HeaderValue("rows=abc") == None
  {
    ParseIntRejectsLead("abc");
    HeaderValueOfText("rows", "abc", []);
    assert "rows" + "=" + "abc" == "rows=abc";
  }

  /** A line is stripped of the separator \x1c at its start like any whitespace. */
  lemma ExampleSeparatorStripped()
    ensures NonBlankLines(["\U{1C}rows=5"]) == ["rows=5"]
  {
    assert Strip("\U{1C}rows=5", Whitespace) == "rows=5" by {
      assert StripLeft("\U{1C}rows=5", Whitespace) == "rows=5";
      StripUnchanged("rows=5", Whitespace);
    }
    NonBlankLinesOne("\U{1C}rows=5");
  }

  /** int() does not skip the separator \x1c, so a header value that starts with one is refused. */
  lemma ExampleSeparatorInHeader()
    ensures HeaderValue("rows=\U{1C}5") == None
  {
    ParseIntRejectsLead("\U{1C}5");
    assert "rows=\U{1C}5" == JoinWith(["rows", "\U{1C}5"], '=');
    SplitJoin(["rows", "\U{1C}5"], '=');
  }

  /** Nor is an element field that starts with the separator \x1c read as an integer. */
  lemma ExampleSeparatorInElement()
    ensures ParseElement("(1,\U{1C}2,3)") == Err(BadElement)
  {
    ParseIntRejectsLead("\U{1C}2");
    ParseElementFields("1", "\U{1C}2", "3");
    assert "(" + "1" + "," + "\U{1C}2" + "," + "3" + ")" == "(1,\U{1C}2,3)";
  }

  /** An empty field is not an integer, so "(,1,2)" is a bad element. */
  lemma ExampleEmptyField()
    ensures ParseElement("(,1,2)") == Err(BadElement)
  {
    ParseElementFields("", "1", "2");
    assert "(" + "" + "," + "1" + "," + "2" + ")" == "(,1,2)";
  }

  /** Two wrapped lines that strip to the same text parse alike, however many parentheses each has. */
  lemma ParseElementByStrip(line: string, line': string)
    requires line != [] && line[0] == '(' && line[|line| - 1] == ')'
    requires line' != [] && line'[0] == '(' && line'[|line'| - 1] == ')'
    requires Strip(line, Parens) == Strip(line', Parens)
    ensures ParseElement(line) == ParseElement(line')
  {
  }

  /** strip('()') removes every parenthesis at either end, so an extra '(' before an element line changes nothing. */
  lemma ParseExtraParen(e: Entry)
    ensures ParseElement("(" + FormatEntry(e)) == Ok(e)
  {
    var single := FormatEntry(e);
    var line := "(" + single;
    FormatEntryShape(e);
    assert Strip(line, Parens) == Strip(single, Parens) by {
      assert line[1..] == single;
      assert StripLeft(line, Parens) == StripLeft(single, Parens);
    }
    ParseElementByStrip(line, single);
    ParseFormatEntry(e);
  }

  /** An element line with two fields is rejected. */
  lemma ExampleTwoFields()
    ensures ParseElement("(1,2)") == Err(BadElement)
  {
    assert Strip("(1,2)", Parens) == "1,2" by {
      StripWrapped("1,2", '(', ')', Parens);
      assert "(1,2)" == ['('] + "1,2" + [')'];
    }
    assert "1,2" == JoinWith(["1", "2"], ',');
    SplitJoin(["1", "2"], ',');
  }
}
