/**
 The OECD reshape of `prepare_oecd_data`: a wide table whose first column
 names the entity and whose other columns are year labels is melted into
 long (entity, year, value) rows. The year label and the cell are coerced to
 numbers (an unparsable one becomes missing), rows before 2010 are dropped,
 and so are rows whose year or value is missing.
 */
module Oecd {
  import opened Records

  /** Rows with an earlier year are dropped. */
  const MinYear: int := 2010

  /** A cell as the CSV reader hands it over: already a number, empty, or text
      that the numeric coercion still has to parse. */
  datatype Cell = Number(x: real) | Blank | Text(s: string)

  /** One row of the wide table: the entity (the 'Time period' column) and one
      cell per year column. */
  datatype WideRow = WideRow(entity: string, cells: seq<Cell>)

  /** The wide table: year-column headers and the rows under them. */
  datatype WideTable = WideTable(headers: seq<string>, rows: seq<WideRow>)

  /** One row of the melted table, before coercion. */
  datatype Melted = Melted(entity: string, header: string, cell: Cell)

  /** Every row has one cell per header, as in any data frame. */
  predicate Rectangular(t: WideTable)
  {
    forall r :: 0 <= r < |t.rows| ==> |t.rows[r].cells| == |t.headers|
  }

  // ---------------------------------------------------------------------
  // Numeric coercion of strings
  // ---------------------------------------------------------------------

  predicate IsDigit(c: char)
  {
    '0' <= c <= '9'
  }

  predicate AllDigits(s: string)
  {
    forall i :: 0 <= i < |s| ==> IsDigit(s[i])
  }

  /** Value of a string of decimal digits, most significant first. */
  function DigitsValue(s: string): nat
    requires AllDigits(s)
  {
    if |s| == 0 then 0
    else 10 * DigitsValue(s[..|s| - 1]) + (s[|s| - 1] as int - '0' as int)
  }

  /** Decimal rendering of a natural number, without leading zeros. */
  function ShowNat(n: nat): (s: string)
    ensures |s| > 0 && AllDigits(s)
  {
    var d := ['0' + (n % 10) as char];
    if n < 10 then d else ShowNat(n / 10) + d
  }

  /** Decimal rendering of an integer, with a leading '-' when negative. */
  function ShowInt(n: int): string
  {
    if n < 0 then "-" + ShowNat(-n) else ShowNat(n)
  }

  function Pow10(k: nat): (p: nat)
    ensures p > 0
  {
    if k == 0 then 1 else 10 * Pow10(k - 1)
  }

  predicate IsSign(c: char)
  {
    c == '+' || c == '-'
  }

  /** An optionally signed run of decimal digits, as an integer. */
  function ParseInt(s: string): (r: Option<int>)
    ensures r.Some? <==> |s| > 0 && (if IsSign(s[0]) then |s| > 1 && AllDigits(s[1..]) else AllDigits(s))
  {
    if |s| == 0 then None
    else if IsSign(s[0]) then
      if |s| > 1 && AllDigits(s[1..]) then
        Some(if s[0] == '-' then -(DigitsValue(s[1..]) as int) else DigitsValue(s[1..]))
      else None
    else if AllDigits(s) then Some(DigitsValue(s))
    else None
  }

  /** Index of the first '.', or |s| when there is none. */
  function DotIndex(s: string): (k: nat)
    ensures k <= |s|
    ensures k < |s| ==> s[k] == '.'
    ensures forall i :: 0 <= i < k ==> s[i] != '.'
  {
    if |s| == 0 then 0
    else if s[0] == '.' then 0
    else 1 + DotIndex(s[1..])
  }

  /** Digits, optionally followed by a point and more digits, with at least
      one digit in all ("7", "3.6", "5." and ".5" are such texts). */
  predicate DecimalText(u: string)
  {
    && (exists k :: 0 <= k <= |u| && AllDigits(u[..k]) && (k == |u| || (u[k] == '.' && AllDigits(u[k + 1..]))))
    && (exists i :: 0 <= i < |u| && IsDigit(u[i]))
  }

  /** The digits before the first point. */
  function Whole(s: string): string
  {
    s[..DotIndex(s)]
  }

  /** The text after the first point, empty when there is none. */
  function Frac(s: string): string
  {
    var k := DotIndex(s);
    if k < |s| then s[k + 1..] else ""
  }

  /** The number written with digits w before the point and f after it. */
  function DecimalValue(w: string, f: string): real
    requires AllDigits(w) && AllDigits(f)
  {
    DigitsValue(w) as real + DigitsValue(f) as real / Pow10(|f|) as real
  }

  /** An unsigned decimal; any other text is not a number. Its value is the
      digits with the point removed, scaled down by one power of ten per
      digit after the point. */
  function ParseUnsigned(s: string): (r: Option<real>)
    ensures r.Some? <==> DecimalText(s)
    ensures r.Some? ==>
      && AllDigits(Whole(s) + Frac(s))
      && r.value == DigitsValue(Whole(s) + Frac(s)) as real / Pow10(|Frac(s)|) as real
  {
    ParseUnsignedAccepts(s);
    if SplitAccepts(s) then
      ParseUnsignedValue(s);
      Some(DecimalValue(Whole(s), Frac(s)))
    else None
  }

  /** An optionally signed decimal number; anything else is not a number. */
  function ParseNumber(s: string): (r: Option<real>)
    ensures r.Some? <==> if |s| > 0 && IsSign(s[0]) then DecimalText(s[1..]) else DecimalText(s)
    ensures !(|s| > 0 && IsSign(s[0])) ==> r == ParseUnsigned(s)
    ensures |s| > 0 && s[0] == '+' ==> r == ParseUnsigned(s[1..])
    ensures |s| > 0 && IsSign(s[0]) && r.Some? ==>
      r == Some(if s[0] == '-' then -ParseUnsigned(s[1..]).value else ParseUnsigned(s[1..]).value)
  {
    if |s| > 0 && IsSign(s[0]) then
      match ParseUnsigned(s[1..])
      case None => None
      case Some(x) => Some(if s[0] == '-' then -x else x)
    else ParseUnsigned(s)
  }

  /** The numeric coercion of one cell; failures become missing. */
  function CellValue(c: Cell): Option<real>
  {
    match c
    case Number(x) => Some(x)
    case Blank => None
    case Text(s) => ParseNumber(s)
  }

  /** The parsed value, scaled up by the digits after the point, is the value
      of all the digits. */
  lemma ParseUnsignedValue(s: string)
    requires SplitAccepts(s)
    ensures AllDigits(Whole(s) + Frac(s))
    ensures DecimalValue(Whole(s), Frac(s)) == DigitsValue(Whole(s) + Frac(s)) as real / Pow10(|Frac(s)|) as real
  {
    var w, f := Whole(s), Frac(s);
    DigitsAppend(w, f);
    ValueScaled(DigitsValue(w), DigitsValue(f), Pow10(|f|), DigitsValue(w + f));
  }

  /** w + f / p is the integer w * p + f over p. */
  lemma ValueScaled(w: nat, f: nat, p: nat, v: nat)
    requires p > 0 && v == w * p + f
    ensures w as real + f as real / p as real == v as real / p as real
  {
    CastMul(w, p);
    ScaleFraction(w as real, f as real, p as real);
  }

  /** Appending digits shifts the value left by their count. */
  lemma {:induction false} DigitsAppend(a: string, b: string)
    requires AllDigits(a) && AllDigits(b)
    ensures AllDigits(a + b)
    ensures DigitsValue(a + b) == DigitsValue(a) * Pow10(|b|) + DigitsValue(b)
    decreases |b|
  {
    if |b| == 0 {
      assert a + b == a;
    } else {
      var b' := b[..|b| - 1];
      assert (a + b)[..|a + b| - 1] == a + b';
      assert (a + b)[|a + b| - 1] == b[|b| - 1];
      DigitsAppend(a, b');
      ShiftDigit(DigitsValue(a), Pow10(|b'|), DigitsValue(b'), b[|b| - 1] as int - '0' as int);
    }
  }

  lemma ShiftDigit(x: int, p: int, y: int, d: int)
    ensures 10 * (x * p + y) + d == x * (10 * p) + (10 * y + d)
  {
  }

  lemma CastMul(x: nat, y: nat)
    ensures (x * y) as real == x as real * y as real
  {
  }

  lemma ScaleFraction(w: real, f: real, p: real)
    requires p != 0.0
    ensures w + f / p == (w * p + f) / p
  {
  }

  /** The split at the first point accepts exactly the decimal texts. */
  lemma ParseUnsignedAccepts(s: string)
    ensures SplitAccepts(s) <==> DecimalText(s)
  {
    if SplitAccepts(s) {
      SplitIsDecimal(s);
    }
    if DecimalText(s) {
      DecimalIsSplit(s);
    }
  }

  /** The digits before the first point, and those after it when there is
      one, with at least one digit in all. */
  predicate SplitAccepts(s: string)
  {
    AllDigits(Whole(s)) && AllDigits(Frac(s)) && |Whole(s)| + |Frac(s)| > 0
  }

  lemma SplitIsDecimal(s: string)
    requires SplitAccepts(s)
    ensures DecimalText(s)
  {
    var k := DotIndex(s);
    assert AllDigits(s[..k]) && (k == |s| || (s[k] == '.' && AllDigits(s[k + 1..])));
    if k > 0 {
      assert s[..k][0] == s[0];
      assert IsDigit(s[0]);
    } else {
      assert s[k + 1..][0] == s[k + 1];
      assert IsDigit(s[k + 1]);
    }
  }

  lemma DecimalIsSplit(s: string)
    requires DecimalText(s)
    ensures SplitAccepts(s)
  {
    var k :| 0 <= k <= |s| && AllDigits(s[..k]) && (k == |s| || (s[k] == '.' && AllDigits(s[k + 1..])));
    DotIndexAt(s, k);
    var i :| 0 <= i < |s| && IsDigit(s[i]);
    if i < k {
      assert s[..k][i] == s[i];
    } else {
      assert s[k + 1..][i - k - 1] == s[i];
    }
  }

  /** A digit run ending at the end or at a point ends at the first point. */
  lemma DotIndexAt(s: string, k: int)
    requires 0 <= k <= |s| && AllDigits(s[..k]) && (k == |s| || s[k] == '.')
    ensures DotIndex(s) == k
  {
    var d := DotIndex(s);
    if d < k {
      assert false;
    }
  }

  lemma {:induction false} DigitsOfShowNat(n: nat)
    ensures DigitsValue(ShowNat(n)) == n
    decreases n
  {
    var d := ['0' + (n % 10) as char];
    if n >= 10 {
      DigitsOfShowNat(n / 10);
      var s := ShowNat(n / 10) + d;
      assert s[..|s| - 1] == ShowNat(n / 10);
    }
  }

  /** Rendering a year and coercing it back gives the year again. */
  lemma ParseShowInt(n: int)
    ensures ParseInt(ShowInt(n)) == Some(n)
  {
    if n < 0 {
      DigitsOfShowNat(-n);
      assert ShowInt(n)[1..] == ShowNat(-n);
    } else {
      DigitsOfShowNat(n);
    }
  }

  /** No digit string contains a '.'. */
  lemma {:induction false} DotIndexOfDigits(s: string)
    requires AllDigits(s)
    ensures DotIndex(s) == |s|
  {
    if |s| > 0 {
      assert IsDigit(s[0]);
      DotIndexOfDigits(s[1..]);
    }
  }

  /** The decimal parser agrees with the integer parser on integer labels. */
  lemma ParseNumberExtendsParseInt(s: string)
    requires ParseInt(s).Some?
    ensures ParseNumber(s) == Some(ParseInt(s).value as real)
  {
    if IsSign(s[0]) {
      DotIndexOfDigits(s[1..]);
      assert s[1..][..|s[1..]|] == s[1..];
    } else {
      DotIndexOfDigits(s);
      assert s[..|s|] == s;
    }
  }

  // ---------------------------------------------------------------------
  // Melt and coercion
  // ---------------------------------------------------------------------

  /** The melted rows of column c: one per wide row, in row order. */
  function Column(t: WideTable, c: int): (col: seq<Melted>)
    requires Rectangular(t) && 0 <= c < |t.headers|
    ensures |col| == |t.rows|
  {
    seq(|t.rows|, r requires 0 <= r < |t.rows| =>
      Melted(t.rows[r].entity, t.headers[c], t.rows[r].cells[c]))
  }

  /** Columns c, c+1, ... melted one after the other. */
  function MeltFrom(t: WideTable, c: nat): seq<Melted>
    requires Rectangular(t) && c <= |t.headers|
    decreases |t.headers| - c
  {
    if c == |t.headers| then [] else Column(t, c) + MeltFrom(t, c + 1)
  }

  /** The melt: column after column, and within a column row after row. */
  function Melt(t: WideTable): seq<Melted>
    requires Rectangular(t)
  {
    MeltFrom(t, 0)
  }

  /** The observation a melted row becomes, if its year label parses to a year
      no earlier than MinYear and its cell parses to a number. */
  function Admit(m: Melted): Option<Obs>
  {
    match ParseInt(m.header)
    case None => None
    case Some(y) =>
      if y >= MinYear && CellValue(m.cell).Some? then Some(Obs(m.entity, y, CellValue(m.cell)))
      else None
  }

  /** Year and value coercion, year filter and dropping of missing values,
      applied to the melted rows in order. */
  function Coerce(ms: seq<Melted>): (os: seq<Obs>)
    ensures |os| <= |ms|
    ensures forall i :: 0 <= i < |os| ==> os[i].period >= MinYear && os[i].value.Some?
  {
    if |ms| == 0 then []
    else
      match Admit(ms[0])
      case None => Coerce(ms[1..])
      case Some(o) => [o] + Coerce(ms[1..])
  }

  /** The wide-to-long reshape of the OECD tables. */
  function PrepareOecd(t: WideTable): (os: seq<Obs>)
    requires Rectangular(t)
    ensures |os| <= |t.rows| * |t.headers|
    ensures forall i :: 0 <= i < |os| ==> os[i].period >= MinYear && os[i].value.Some?
  {
    MeltLength(t, 0);
    Coerce(Melt(t))
  }

  /** The melt is column-major: the cell of row r under header c + j sits at
      position j * rows + r of the melt from column c. */
  lemma {:induction false} MeltFromIndex(t: WideTable, c: nat, j: nat, r: int)
    requires Rectangular(t) && c + j < |t.headers| && 0 <= r < |t.rows|
    ensures j * |t.rows| + r < |MeltFrom(t, c)|
    ensures MeltFrom(t, c)[j * |t.rows| + r] == Melted(t.rows[r].entity, t.headers[c + j], t.rows[r].cells[c + j])
    decreases j
  {
    var n := |t.rows|;
    MeltLength(t, c);
    if j > 0 {
      MeltFromIndex(t, c + 1, j - 1, r);
      NextBlock(j, n, r);
    }
  }

  /** Position j * n + r lies past the first block of n, at (j - 1) * n + r
      within the rest. */
  lemma NextBlock(j: nat, n: nat, r: int)
    requires j > 0
    ensures j * n + r == n + ((j - 1) * n + r)
  {
  }

  /** The cell of row r under header c sits at position c * rows + r. */
  lemma MeltIndex(t: WideTable, c: int, r: int)
    requires Rectangular(t) && 0 <= c < |t.headers| && 0 <= r < |t.rows|
    ensures c * |t.rows| + r < |Melt(t)|
    ensures Melt(t)[c * |t.rows| + r] == Melted(t.rows[r].entity, t.headers[c], t.rows[r].cells[c])
  {
    MeltFromIndex(t, 0, c, r);
  }

  /** A single melted row is kept, as its observation, exactly when it is
      admitted. */
  lemma CoerceSingle(m: Melted)
    ensures Coerce([m]) == match Admit(m) case None => [] case Some(o) => [o]
  {
    assert [m][1..] == [];
  }

  /** Coercion works row by row and keeps the order: with CoerceSingle this
      fixes which rows survive, in which order and how often. */
  lemma {:induction false} CoerceAppend(a: seq<Melted>, b: seq<Melted>)
    ensures Coerce(a + b) == Coerce(a) + Coerce(b)
  {
    if |a| > 0 {
      assert (a + b)[1..] == a[1..] + b;
      assert (a + b)[0] == a[0];
      CoerceAppend(a[1..], b);
    } else {
      assert a + b == b;
    }
  }

  lemma {:induction false} MeltLength(t: WideTable, c: nat)
    requires Rectangular(t) && c <= |t.headers|
    ensures |MeltFrom(t, c)| == |t.rows| * (|t.headers| - c)
    decreases |t.headers| - c
  {
    if c < |t.headers| {
      MeltLength(t, c + 1);
      assert |t.rows| * (|t.headers| - c) == |t.rows| + |t.rows| * (|t.headers| - (c + 1));
    }
  }

  /** The melt holds exactly one row per (row, column) cell of the table. */
  lemma {:induction false} MeltMembership(t: WideTable, c: nat, m: Melted)
    requires Rectangular(t) && c <= |t.headers|
    ensures m in MeltFrom(t, c) <==>
      exists r, k :: 0 <= r < |t.rows| && c <= k < |t.headers| &&
        m == Melted(t.rows[r].entity, t.headers[k], t.rows[r].cells[k])
    decreases |t.headers| - c
  {
    if c < |t.headers| {
      MeltMembership(t, c + 1, m);
      var col := Column(t, c);
      assert m in MeltFrom(t, c) <==> m in col || m in MeltFrom(t, c + 1);
      if m in col {
        var r :| 0 <= r < |col| && col[r] == m;
        assert m == Melted(t.rows[r].entity, t.headers[c], t.rows[r].cells[c]);
      }
      if exists r, k :: 0 <= r < |t.rows| && c <= k < |t.headers| &&
          m == Melted(t.rows[r].entity, t.headers[k], t.rows[r].cells[k]) {
        var r, k :| 0 <= r < |t.rows| && c <= k < |t.headers| &&
          m == Melted(t.rows[r].entity, t.headers[k], t.rows[r].cells[k]);
        if k == c {
          assert col[r] == m;
        }
      }
    }
  }

  /** The coerced rows are exactly the admitted melted rows. */
  lemma {:induction false} CoerceMembership(ms: seq<Melted>, o: Obs)
    ensures o in Coerce(ms) <==> exists i :: 0 <= i < |ms| && Admit(ms[i]) == Some(o)
  {
    if |ms| > 0 {
      CoerceMembership(ms[1..], o);
      if exists i :: 0 <= i < |ms| && Admit(ms[i]) == Some(o) {
        var i :| 0 <= i < |ms| && Admit(ms[i]) == Some(o);
        if i > 0 {
          assert ms[1..][i - 1] == ms[i];
        }
      }
      if exists i :: 0 <= i < |ms[1..]| && Admit(ms[1..][i]) == Some(o) {
        var i :| 0 <= i < |ms[1..]| && Admit(ms[1..][i]) == Some(o);
        assert ms[i + 1] == ms[1..][i];
      }
    }
  }

  /** Cell (r, c) of the table yields observation o. */
  predicate CellYields(t: WideTable, r: int, c: int, o: Obs)
    requires Rectangular(t) && 0 <= r < |t.rows| && 0 <= c < |t.headers|
  {
    && o.entity == t.rows[r].entity
    && ParseInt(t.headers[c]) == Some(o.period)
    && o.period >= MinYear
    && CellValue(t.rows[r].cells[c]) == o.value
    && o.value.Some?
  }

  /** An observation is in the reshaped table iff some cell of the wide table,
      under a year label parsing to at least MinYear, parses to its value. */
  lemma PrepareOecdMembership(t: WideTable, o: Obs)
    requires Rectangular(t)
    ensures o in PrepareOecd(t) <==>
      exists r, c :: 0 <= r < |t.rows| && 0 <= c < |t.headers| && CellYields(t, r, c, o)
  {
    if o in PrepareOecd(t) {
      var r, c := CellOf(t, o);
    }
    if exists r, c :: 0 <= r < |t.rows| && 0 <= c < |t.headers| && CellYields(t, r, c, o) {
      var r, c :| 0 <= r < |t.rows| && 0 <= c < |t.headers| && CellYields(t, r, c, o);
      CellIn(t, r, c, o);
    }
  }

  /** Every reshaped observation comes from a cell that yields it. */
  lemma CellOf(t: WideTable, o: Obs) returns (r: int, c: int)
    requires Rectangular(t) && o in PrepareOecd(t)
    ensures 0 <= r < |t.rows| && 0 <= c < |t.headers| && CellYields(t, r, c, o)
  {
    var ms := Melt(t);
    CoerceMembership(ms, o);
    var i :| 0 <= i < |ms| && Admit(ms[i]) == Some(o);
    MeltMembership(t, 0, ms[i]);
    r, c :| 0 <= r < |t.rows| && 0 <= c < |t.headers| &&
      ms[i] == Melted(t.rows[r].entity, t.headers[c], t.rows[r].cells[c]);
  }

  /** Every cell that yields an observation puts it into the reshape. */
  lemma CellIn(t: WideTable, r: int, c: int, o: Obs)
    requires Rectangular(t) && 0 <= r < |t.rows| && 0 <= c < |t.headers| && CellYields(t, r, c, o)
    ensures o in PrepareOecd(t)
  {
    var ms := Melt(t);
    var m := Melted(t.rows[r].entity, t.headers[c], t.rows[r].cells[c]);
    MeltMembership(t, 0, m);
    var i :| 0 <= i < |ms| && ms[i] == m;
    assert Admit(ms[i]) == Some(o);
    CoerceMembership(ms, o);
  }

  /** Writes observations back as melted rows (year label rendered in decimal,
      value as a number cell), the form the reshape reads. */
  function Restore(os: seq<Obs>): (ms: seq<Melted>)
    ensures |ms| == |os|
  {
    seq(|os|, i requires 0 <= i < |os| =>
      Melted(os[i].entity, ShowInt(os[i].period),
             match os[i].value case Some(x) => Number(x) case None => Blank))
  }

  /** Coercion leaves already-coerced observations unchanged. */
  lemma {:induction false} CoerceRestore(os: seq<Obs>)
    requires forall i :: 0 <= i < |os| ==> os[i].period >= MinYear && os[i].value.Some?
    ensures Coerce(Restore(os)) == os
  {
    if |os| > 0 {
      ParseShowInt(os[0].period);
      assert Restore(os)[1..] == Restore(os[1..]);
      CoerceRestore(os[1..]);
      assert Admit(Restore(os)[0]) == Some(os[0]);
    }
  }

  /** Re-running the coercion on the reshape's own output is a no-op. */
  lemma PrepareOecdIdempotent(t: WideTable)
    requires Rectangular(t)
    ensures Coerce(Restore(PrepareOecd(t))) == PrepareOecd(t)
  {
    CoerceRestore(PrepareOecd(t));
  }

  lemma ExampleLabels()
    ensures ParseNumber("3.6") == Some(3.6)
    ensures ParseNumber("..") == None
  {
    assert DotIndex("3.6") == 1;
    assert "3.6"[..1] == "3" && "3.6"[2..] == "6";
    assert DigitsValue("3") == 3 && DigitsValue("6") == 6;
  }

  lemma ExampleYears()
    ensures ParseInt("2009") == Some(2009) && ParseInt("2017") == Some(2017)
    ensures ParseInt("2018") == Some(2018) && ParseInt("2019") == Some(2019)
  {
    FourDigits("2009");
    FourDigits("2017");
    FourDigits("2018");
    FourDigits("2019");
  }

  function DigitOf(c: char): int
  {
    c as int - '0' as int
  }

  /** A four-digit label parses to its positional value. */
  lemma FourDigits(s: string)
    requires |s| == 4 && AllDigits(s)
    ensures ParseInt(s) == Some(1000 * DigitOf(s[0]) + 100 * DigitOf(s[1]) + 10 * DigitOf(s[2]) + DigitOf(s[3]))
  {
    var s3 := s[..3];
    var s2 := s3[..2];
    var s1 := s2[..1];
    assert s1[..0] == [];
    assert DigitsValue(s1) == DigitOf(s[0]);
    assert DigitsValue(s2) == 10 * DigitOf(s[0]) + DigitOf(s[1]);
    assert DigitsValue(s3) == 100 * DigitOf(s[0]) + 10 * DigitOf(s[1]) + DigitOf(s[2]);
  }

  /** A German row over 2009 and 2017-2019. */
  function ExampleTable(): WideTable
  {
    WideTable(["2009", "2017", "2018", "2019"],
      [WideRow("Germany", [Number(2.0), Text("3.6"), Number(1.3), Text("..")])])
  }

  lemma ExampleMelt()
    ensures Rectangular(ExampleTable())
    ensures Melt(ExampleTable()) ==
      [Melted("Germany", "2009", Number(2.0)), Melted("Germany", "2017", Text("3.6")),
       Melted("Germany", "2018", Number(1.3)), Melted("Germany", "2019", Text(".."))]
  {
    var t := ExampleTable();
    assert MeltFrom(t, 3) == [Melted("Germany", "2019", Text(".."))];
    assert MeltFrom(t, 2) == [Melted("Germany", "2018", Number(1.3))] + MeltFrom(t, 3);
    assert MeltFrom(t, 1) == [Melted("Germany", "2017", Text("3.6"))] + MeltFrom(t, 2);
  }

  lemma ExampleCoerce()
    ensures Coerce([Melted("Germany", "2009", Number(2.0)), Melted("Germany", "2017", Text("3.6")),
                    Melted("Germany", "2018", Number(1.3)), Melted("Germany", "2019", Text(".."))])
      == [Obs("Germany", 2017, Some(3.6)), Obs("Germany", 2018, Some(1.3))]
  {
    var m0 := Melted("Germany", "2009", Number(2.0));
    var m1 := Melted("Germany", "2017", Text("3.6"));
    var m2 := Melted("Germany", "2018", Number(1.3));
    var m3 := Melted("Germany", "2019", Text(".."));
    ExampleAdmit();
    assert [m3][1..] == [];
    assert Coerce([m3]) == [];
    assert [m2, m3][1..] == [m3];
    assert Coerce([m2, m3]) == [Obs("Germany", 2018, Some(1.3))];
    assert [m1, m2, m3][1..] == [m2, m3];
    assert Coerce([m1, m2, m3]) == [Obs("Germany", 2017, Some(3.6)), Obs("Germany", 2018, Some(1.3))];
    assert [m0, m1, m2, m3][1..] == [m1, m2, m3];
  }

  /** The 2009 cell is too early and the ".." cell is not a number. */
  lemma ExampleAdmit()
    ensures Admit(Melted("Germany", "2009", Number(2.0))) == None
    ensures Admit(Melted("Germany", "2017", Text("3.6"))) == Some(Obs("Germany", 2017, Some(3.6)))
    ensures Admit(Melted("Germany", "2018", Number(1.3))) == Some(Obs("Germany", 2018, Some(1.3)))
    ensures Admit(Melted("Germany", "2019", Text(".."))) == None
  {
    ExampleYears();
    ExampleLabels();
  }

  /** The worked example: Germany's 2009 cell is before 2010 and its 2019 cell
      is not a number, so only 2017 and 2018 survive. */
  lemma GermanyExample()
    ensures Rectangular(ExampleTable())
    ensures PrepareOecd(ExampleTable()) ==
      [Obs("Germany", 2017, Some(3.6)), Obs("Germany", 2018, Some(1.3))]
  {
    ExampleMelt();
    ExampleCoerce();
  }
}
