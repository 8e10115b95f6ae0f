/**
  Sensitive-term extraction of the conservative anonymiser: the author,
  co-author, e-mail and institution cells of a paper's metadata row are
  split into the terms that are later blacked out of the paper's first
  page.
 */
module AnonymizePdfs {
  import opened Common
  import opened Text

  /** A metadata row: column name to cell text, `None` for a missing value (NaN). */
  type Row = map<string, Option<string>>

  /** The columns that hold identifying information, in the order they are read. */
  const Cols: seq<string> := [
    "Name", "Email", "institution", "Co author name", "Coauthor emails",
    "Coauthor institution", "Coauthor 2\U{A0}", "Coauthor 2 email",
    "Coauthor institution.1", "Coauthor 3", "coauthor 3 email", "coauthor 3 instituti"
  ]

  /** The cell of `col`, `None` when the column is absent or its value is missing. */
  function Cell(row: Row, col: string): Option<string>
  {
    if col in row then row[col] else None
  }

  /** `[p.strip() for p in val.replace(",", ";").split(";")]`. */
  function Parts(val: string): seq<string>
  {
    var fields := Split(Replace(val, ",", ";"), ';');
    seq(|fields|, k requires 0 <= k < |fields| => Strip(fields[k]))
  }

  /** The parts longer than two characters, as a set. */
  function LongParts(parts: seq<string>): set<string>
  {
    if parts == [] then {}
    else LongParts(parts[..|parts| - 1]) + (if |parts[|parts| - 1]| > 2 then {parts[|parts| - 1]} else {})
  }

  /** The terms one column contributes. */
  function ColumnTerms(row: Row, col: string): set<string>
  {
    match Cell(row, col)
    case None => {}
    case Some(v) => LongParts(Parts(Strip(v)))
  }

  /** The union of a sequence of sets, taken from the front. */
  function Union(ss: seq<set<string>>): set<string>
  {
    if ss == [] then {} else Union(ss[..|ss| - 1]) + ss[|ss| - 1]
  }

  /** The terms of each of the columns `cols`, in order. */
  function ColumnSets(row: Row, cols: seq<string>): (r: seq<set<string>>)
    ensures |r| == |cols|
  {
    seq(|cols|, k requires 0 <= k < |cols| => ColumnTerms(row, cols[k]))
  }

  /** The terms of all listed columns. */
  function SensitiveTerms(row: Row): set<string>
  {
    Union(ColumnSets(row, Cols))
  }

  /** `get_sensitive_terms(row)`: adds to a set in a loop over the columns and, inside it, over the parts. */
  method GetSensitiveTerms(row: Row) returns (terms: set<string>)
    ensures terms == SensitiveTerms(row)
  {
    terms := {};
    var cols := Cols;
    ghost var sets := ColumnSets(row, cols);
    var c := 0;
    while c < |cols|
      invariant 0 <= c <= |cols|
      invariant terms == Union(sets[..c])
    {
      var col := cols[c];
      UnionSnoc(sets, c);
      if col in row && row[col].Some? {
        var parts := Parts(Strip(row[col].value));
        terms := AddLongParts(terms, parts);
      }
      assert sets[c] == ColumnTerms(row, col);
      c := c + 1;
    }
    assert sets[..c] == sets;
  }

  /** The inner loop of `get_sensitive_terms`: adds the parts longer than two characters. */
  method AddLongParts(terms: set<string>, parts: seq<string>) returns (r: set<string>)
    ensures r == terms + LongParts(parts)
  {
    r := terms;
    var i := 0;
    while i < |parts|
      invariant 0 <= i <= |parts|
      invariant r == terms + LongParts(parts[..i])
    {
      LongPartsSnoc(parts, i);
      if |parts[i]| > 2 {
        r := r + {parts[i]};
      }
      i := i + 1;
    }
    assert parts[..i] == parts;
  }

  lemma UnionSnoc(ss: seq<set<string>>, c: nat)
    requires c < |ss|
    ensures Union(ss[..c + 1]) == Union(ss[..c]) + ss[c]
  {
    assert ss[..c + 1][..c] == ss[..c];
  }

  lemma LongPartsSnoc(parts: seq<string>, i: nat)
    requires i < |parts|
    ensures LongParts(parts[..i + 1]) == LongParts(parts[..i]) + (if |parts[i]| > 2 then {parts[i]} else {})
  {
    assert parts[..i + 1][..i] == parts[..i];
  }

  // ---------------------------------------------------------------------------
  // Properties

  /** A set of long parts holds exactly the parts longer than two characters. */
  lemma {:induction false} LongPartsMembers(parts: seq<string>, t: string)
    ensures t in LongParts(parts) <==> t in parts && |t| > 2
  {
    if parts != [] {
      var front := parts[..|parts| - 1];
      LongPartsMembers(front, t);
      assert parts == front + [parts[|parts| - 1]];
    }
  }

  /** Some set among `ss` holds `t`. */
  ghost predicate InSomeSet(ss: seq<set<string>>, t: string)
  {
    exists k :: 0 <= k < |ss| && t in ss[k]
  }

  /** A union holds exactly what one of its sets holds. */
  lemma {:induction false} UnionMembers(ss: seq<set<string>>, t: string)
    ensures t in Union(ss) <==> InSomeSet(ss, t)
  {
    if ss != [] {
      var n := |ss| - 1;
      var front := ss[..n];
      UnionMembers(front, t);
      if InSomeSet(front, t) {
        var k :| 0 <= k < |front| && t in front[k];
        assert ss[k] == front[k];
      }
      if InSomeSet(ss, t) {
        var k :| 0 <= k < |ss| && t in ss[k];
        if k < n {
          assert ss[k] == front[k];
          assert InSomeSet(front, t);
        }
      }
    }
  }

  /** Every field of `s.split(sep)` lacks any character that `s` lacks. */
  lemma {:induction false} SplitKeepsOut(s: string, sep: char, c: char)
    requires c !in s
    ensures forall k :: 0 <= k < |Split(s, sep)| ==> c !in Split(s, sep)[k]
    decreases |s|
  {
    if s != [] {
      assert c !in s[1..] by {
        forall x | x in s[1..]
          ensures x != c
        {
          var k :| 0 <= k < |s[1..]| && s[1..][k] == x;
          assert s[k + 1] == x;
        }
      }
      SplitKeepsOut(s[1..], sep, c);
    }
  }

  /** `strip()` keeps out what its string keeps out. */
  lemma StripKeepsOut(s: string, c: char)
    requires c !in s
    ensures c !in Strip(s)
  {
    StripShape(s);
    var u := Strip(s);
    forall k | 0 <= k < |u|
      ensures u[k] != c
    {
      assert u[k] == s[LeadSpaces(s) + k];
    }
  }

  /** Every part of a cell value is stripped and holds neither a comma nor a semicolon. */
  lemma PartsFacts(val: string, p: string)
    requires p in Parts(val)
    ensures ',' !in p && ';' !in p && Strip(p) == p
  {
    var rep := Replace(val, ",", ";");
    ReplaceCharRemoves(val, ',', ";");
    SplitKeepsOut(rep, ';', ',');
    var fields := Split(rep, ';');
    var k :| 0 <= k < |fields| && p == Strip(fields[k]);
    StripKeepsOut(fields[k], ',');
    StripKeepsOut(fields[k], ';');
    StripIdempotent(fields[k]);
  }

  /**
    Every sensitive term is longer than two characters, stripped, free of
    commas and semicolons, and comes from one of the listed columns that
    holds a value.
   */
  lemma TermFacts(row: Row, t: string)
    requires t in SensitiveTerms(row)
    ensures |t| > 2 && ',' !in t && ';' !in t && Strip(t) == t
    ensures exists k :: 0 <= k < |Cols| && Cell(row, Cols[k]).Some?
  {
    var sets := ColumnSets(row, Cols);
    UnionMembers(sets, t);
    var k :| 0 <= k < |sets| && t in sets[k];
    assert t in ColumnTerms(row, Cols[k]);
    var v := Cell(row, Cols[k]).value;
    LongPartsMembers(Parts(Strip(v)), t);
    PartsFacts(Strip(v), t);
  }

  /** Only the listed columns are read: rows that agree on them give the same terms. */
  lemma OnlyListedColumns(row: Row, other: Row)
    requires forall k :: 0 <= k < |Cols| ==> Cell(row, Cols[k]) == Cell(other, Cols[k])
    ensures SensitiveTerms(row) == SensitiveTerms(other)
  {
    var a := ColumnSets(row, Cols);
    var b := ColumnSets(other, Cols);
    forall k | 0 <= k < |Cols|
      ensures a[k] == b[k]
    {
      assert Cell(row, Cols[k]) == Cell(other, Cols[k]);
    }
    assert a == b;
  }

  /** Replacing a character that does not occur changes nothing. */
  lemma {:induction false} ReplaceAbsent(s: string, c: char, repl: string)
    requires c !in s
    ensures Replace(s, [c], repl) == s
    decreases |s|
  {
    if s != [] {
      assert c !in s[1..] by {
        forall x | x in s[1..]
          ensures x != c
        {
          var k :| 0 <= k < |s[1..]| && s[1..][k] == x;
          assert s[k + 1] == x;
        }
      }
      ReplaceAbsent(s[1..], c, repl);
      assert [s[0]] + s[1..] == s;
    }
  }

  /**
    A listed column whose stripped value has no separator and is longer
    than two characters contributes exactly that stripped value.
   */
  lemma SingleValueColumn(row: Row, col: string, v: string)
    requires Cell(row, col) == Some(v)
    requires ',' !in Strip(v) && ';' !in Strip(v) && |Strip(v)| > 2
    ensures ColumnTerms(row, col) == {Strip(v)}
    ensures col in Cols ==> Strip(v) in SensitiveTerms(row)
  {
    var s := Strip(v);
    ReplaceAbsent(s, ',', ";");
    SplitNoSep(s, ';');
    StripIdempotent(v);
    assert Parts(s) == [s];
    assert LongParts([s]) == LongParts([]) + {s};
    if col in Cols {
      var k :| 0 <= k < |Cols| && Cols[k] == col;
      var sets := ColumnSets(row, Cols);
      assert sets[k] == ColumnTerms(row, col);
      UnionMembers(sets, s);
    }
  }

  /** Absent and missing values contribute nothing: a row without any listed value has no terms. */
  lemma NoValuesNoTerms(row: Row)
    requires forall k :: 0 <= k < |Cols| ==> Cell(row, Cols[k]).None?
    ensures SensitiveTerms(row) == {}
  {
    forall t | t in SensitiveTerms(row)
      ensures false
    {
      TermFacts(row, t);
    }
  }
}
