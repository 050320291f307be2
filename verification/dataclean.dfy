/** The row-cleaning steps of utils/dataclean.go: header and missing-value
    removal, dropping the id column, coding the education and marital-status
    text, mapping yes/no columns to true/false, and the age filter. Each step
    returns new records; the source updates rows in place and returns them. */
module DataClean {
  import opened Results
  import opened GoStrings
  import opened Seqs
  import opened Data

  // ---------------------------------------------------------------------
  // Header, missing values, id column
  // ---------------------------------------------------------------------

  /** `removeFirstRow`: drop the header row if there is one. */
  function RemoveFirstRow(records: Dataset): (r: Dataset)
    ensures |records| > 0 ==> [records[0]] + r == records
    ensures |records| == 0 ==> r == []
  {
    if |records| > 0 then records[1..] else records
  }

  /** A row is complete when none of its fields is the empty string. */
  predicate Complete(row: Row)
  {
    forall value <- row :: value != ""
  }

  /** The inner loop of `removeMissing`: whether some field is empty. */
  method HasMissing(row: Row) returns (hasMissing: bool)
    ensures hasMissing <==> !Complete(row)
  {
    hasMissing := false;
    for j := 0 to |row|
      invariant hasMissing <==> exists k :: 0 <= k < j && row[k] == ""
    {
      if row[j] == "" {
        hasMissing := true;
        break;
      }
    }
    assert hasMissing <==> "" in row;
  }

  /** `removeMissing`: keep, in order, the rows with no empty field. */
  method RemoveMissing(records: Dataset) returns (clean: Dataset)
    ensures clean == Filter(records, Complete)
    ensures forall row <- clean :: Complete(row)
    ensures forall row <- records :: Complete(row) ==> row in clean
  {
    clean := [];
    for i := 0 to |records|
      invariant clean == Filter(records[..i], Complete)
    {
      var hasMissing := HasMissing(records[i]);
      FilterSnoc(records[..i], records[i], Complete);
      assert records[..i + 1] == records[..i] + [records[i]];
      if !hasMissing {
        clean := clean + [records[i]];
      }
    }
    assert records[..|records|] == records;
    FilterMembers(records, Complete);
  }

  /** The id-column loop: every row loses its first field and keeps the rest
      in order. The source slices `record[1:]`, which fails on an empty row,
      so every row must have a field to drop. */
  method DropIdColumn(records: Dataset) returns (r: Dataset)
    requires forall row <- records :: |row| > 0
    ensures |r| == |records|
    ensures forall i :: 0 <= i < |records| ==> [records[i][0]] + r[i] == records[i]
  {
    r := [];
    for i := 0 to |records|
      invariant |r| == i
      invariant forall k :: 0 <= k < i ==> [records[k][0]] + r[k] == records[k]
    {
      assert records[i] in records;
      r := r + [records[i][1..]];
    }
  }

  // ---------------------------------------------------------------------
  // Text codes
  // ---------------------------------------------------------------------

  /** The education levels the source recognises, indexed by their code. */
  const EducationNames: seq<string> := ["", "primary", "secondary", "tertiary"]

  /** The marital statuses the source recognises, indexed by their code. */
  const MaritalNames: seq<string> := ["", "married", "single", "divorced"]

  /** The codes, as text, indexed by their value. */
  const Digits: seq<string> := ["0", "1", "2", "3"]

  /** Column 3 of `mapTextToNumeric`: tertiary, secondary and primary, in any
      letter case, become 3, 2 and 1; anything else becomes 0. */
  function EducationCode(s: string): (code: string)
    ensures code in Digits
  {
    match ToLower(s)
    case "tertiary" => "3"
    case "secondary" => "2"
    case "primary" => "1"
    case _ => "0"
  }

  /** Column 2 of `mapTextToNumeric`: married, single and divorced, in any
      letter case, become 1, 2 and 3; anything else becomes 0. */
  function MaritalCode(s: string): (code: string)
    ensures code in Digits
  {
    match ToLower(s)
    case "married" => "1"
    case "single" => "2"
    case "divorced" => "3"
    case _ => "0"
  }

  /** An education code names exactly the level it was made from: a non-zero
      code `n` comes from text whose lower-case form is the `n`-th name, and
      code 0 from text that lowers to none of the names. */
  lemma EducationCodeNames(s: string)
    ensures forall n :: 1 <= n < 4 ==> (EducationCode(s) == Digits[n] <==> ToLower(s) == EducationNames[n])
    ensures EducationCode(s) == "0" <==> ToLower(s) !in EducationNames[1..]
  {
    assert EducationNames[1..] == ["primary", "secondary", "tertiary"];
  }

  /** A marital code names exactly the status it was made from. */
  lemma MaritalCodeNames(s: string)
    ensures forall n :: 1 <= n < 4 ==> (MaritalCode(s) == Digits[n] <==> ToLower(s) == MaritalNames[n])
    ensures MaritalCode(s) == "0" <==> ToLower(s) !in MaritalNames[1..]
  {
    assert MaritalNames[1..] == ["married", "single", "divorced"];
  }

  /** Coding ignores letter case: lower-casing the text first changes nothing. */
  lemma CodesIgnoreCase(s: string)
    ensures EducationCode(ToLower(s)) == EducationCode(s)
    ensures MaritalCode(ToLower(s)) == MaritalCode(s)
  {
    ToLowerIdempotent(s);
  }

  /** Both codes are insensitive to the case of ASCII letters: text that
      differs only in letter case gets the same code. */
  lemma CodesCaseInsensitive(s: string, t: string)
    requires SameUpToAsciiCase(s, t)
    ensures EducationCode(s) == EducationCode(t)
    ensures MaritalCode(s) == MaritalCode(t)
  {
    ToLowerIgnoresAsciiCase(s, t);
  }

  /** `mapTextToNumeric`: replace column 3 by its education code and column 2
      by its marital code, leaving every other field as it was. The source
      indexes `record[3]` unchecked, so every row needs at least four fields. */
  method MapTextToNumeric(records: Dataset) returns (r: Dataset)
    requires forall row <- records :: |row| > 3
    ensures |r| == |records|
    ensures forall i :: 0 <= i < |records| ==>
      && |r[i]| == |records[i]|
      && r[i][3] == EducationCode(records[i][3])
      && r[i][2] == MaritalCode(records[i][2])
      && (forall c :: 0 <= c < |records[i]| && c != 2 && c != 3 ==> r[i][c] == records[i][c])
  {
    r := [];
    for i := 0 to |records|
      invariant |r| == i
      invariant forall k :: 0 <= k < i ==>
        && |r[k]| == |records[k]|
        && r[k][3] == EducationCode(records[k][3])
        && r[k][2] == MaritalCode(records[k][2])
        && (forall c :: 0 <= c < |records[k]| && c != 2 && c != 3 ==> r[k][c] == records[k][c])
    {
      var record := records[i];
      assert record in records;
      record := record[3 := EducationCode(record[3])];
      record := record[2 := MaritalCode(record[2])];
      r := r + [record];
    }
  }

  // ---------------------------------------------------------------------
  // Yes/no columns
  // ---------------------------------------------------------------------

  /** The columns holding yes/no answers once the id column is gone. */
  predicate IsBoolColumn(c: nat)
  {
    c == 4 || c == 6 || c == 7 || c == 16
  }

  /** A yes/no answer as the source stores it: exactly "yes" is true,
      anything else is false. */
  function YesToBool(s: string): (b: string)
    ensures b == "true" || b == "false"
    ensures b == "true" <==> s == "yes"
  {
    if s == "yes" then "true" else "false"
  }

  /** One row of the yes/no loop. */
  function BoolRow(row: Row): (r: Row)
    requires |row| > 16
    ensures |r| == |row|
    ensures forall c :: 0 <= c < |row| ==> r[c] == if IsBoolColumn(c) then YesToBool(row[c]) else row[c]
  {
    row[4 := YesToBool(row[4])][6 := YesToBool(row[6])][7 := YesToBool(row[7])][16 := YesToBool(row[16])]
  }

  /** The yes/no loop of `DataClean`: each of the columns 4, 6, 7 and 16
      becomes "true" exactly when it was "yes" and "false" otherwise; every
      other field is kept. The source indexes column 16 unchecked, so every
      row needs at least seventeen fields. */
  method MapBoolColumns(records: Dataset) returns (r: Dataset)
    requires forall row <- records :: |row| > 16
    ensures |r| == |records|
    ensures forall i :: 0 <= i < |records| ==> |r[i]| == |records[i]|
    ensures forall i, c :: 0 <= i < |records| && 0 <= c < |records[i]| && IsBoolColumn(c) ==>
      (r[i][c] == "true" <==> records[i][c] == "yes") && (r[i][c] == "true" || r[i][c] == "false")
    ensures forall i, c :: 0 <= i < |records| && 0 <= c < |records[i]| && !IsBoolColumn(c) ==>
      r[i][c] == records[i][c]
  {
    r := [];
    for i := 0 to |records|
      invariant |r| == i
      invariant forall k :: 0 <= k < i ==> |records[k]| > 16 && r[k] == BoolRow(records[k])
    {
      assert records[i] in records;
      r := r + [BoolRow(records[i])];
    }
  }

  // ---------------------------------------------------------------------
  // Age filter
  // ---------------------------------------------------------------------

  /** A row passes the age filter when its first field parses as an integer
      between 0 and 120 inclusive; `atoi` stands for the integer parser and
      answers `None` where the parser reports an error. */
  function AgeOk(atoi: string -> Option<int>): Row -> bool
  {
    row => |row| > 0 && atoi(row[0]).Some? && 0 <= atoi(row[0]).value <= 120
  }

  /** `filterRecordsAge`: keep, in order, the rows whose age parses and lies
      in 0..120. The source reads `record[0]` unchecked, so every row needs a
      first field. */
  method FilterRecordsAge(records: Dataset, atoi: string -> Option<int>) returns (kept: Dataset)
    requires forall row <- records :: |row| > 0
    ensures kept == Filter(records, AgeOk(atoi))
    ensures forall row <- records :: (row in kept <==> atoi(row[0]).Some? && 0 <= atoi(row[0]).value <= 120)
  {
    kept := [];
    for i := 0 to |records|
      invariant kept == Filter(records[..i], AgeOk(atoi))
    {
      var row := records[i];
      assert row in records;
      assert AgeOk(atoi)(row) <==> atoi(row[0]).Some? && 0 <= atoi(row[0]).value <= 120;
      FilterSnoc(records[..i], row, AgeOk(atoi));
      assert records[..i + 1] == records[..i] + [records[i]];
      var parsed := atoi(row[0]);
      if parsed.Some? && 0 <= parsed.value <= 120 {
        kept := kept + [row];
      }
    }
    assert records[..|records|] == records;
    FilterMembers(records, AgeOk(atoi));
  }
}
