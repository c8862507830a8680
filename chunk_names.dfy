/** Chunk file names: the splitter formats `{name}_{n}`, the merger parses a
    name back by cutting it at its last underscore and reading the suffix as
    a decimal number. */
module ChunkNames {

  import opened Files

  /** What the merger reads out of a chunk name: the base name (the original
      file's name) and the part number. */
  datatype ChunkId = ChunkId(base: string, part: nat)

  /** ASCII decimal digit; the model of `str.isdigit` on one character. */
  predicate IsDigit(c: char) {
    '0' <= c <= '9'
  }

  predicate AllDigits(s: string) {
    forall i | 0 <= i < |s| :: IsDigit(s[i])
  }

  function DigitChar(d: nat): (c: char)
    requires d < 10
    ensures IsDigit(c)
    ensures c == '0' <==> d == 0
  {
    (48 + d) as char
  }

  function DigitValue(c: char): (d: nat)
    requires IsDigit(c)
    ensures d < 10
    ensures DigitChar(d) == c
  {
    c as int - 48
  }

  /** Decimal text of `n` as Python's `str(n)` writes it: at least one digit
      and no leading zero except for 0 itself. */
  function Decimal(n: nat): (s: string)
    ensures |s| > 0 && AllDigits(s)
    ensures s[0] == '0' <==> n == 0
  {
    if n < 10 then [DigitChar(n)] else Decimal(n / 10) + [DigitChar(n % 10)]
  }

  /** Value of a string of decimal digits, as Python's `int(s)`; leading
      zeros are accepted, so "01" and "1" both read as 1. */
  function DecimalValue(s: string): nat
    requires AllDigits(s)
  {
    if s == [] then 0 else DecimalValue(s[..|s| - 1]) * 10 + DigitValue(s[|s| - 1])
  }

  lemma {:induction false} DecimalRoundTrip(n: nat)
    ensures DecimalValue(Decimal(n)) == n
  {
    var s := Decimal(n);
    if n >= 10 {
      DecimalRoundTrip(n / 10);
      assert s[..|s| - 1] == Decimal(n / 10);
    }
  }

  /** A leading zero does not change the value: `int("01") == int("1")`. */
  lemma {:induction false} DecimalValueLeadingZero(s: string)
    requires AllDigits(s)
    ensures DecimalValue("0" + s) == DecimalValue(s)
    decreases |s|
  {
    if s != [] {
      var init := s[..|s| - 1];
      DecimalValueLeadingZero(init);
      assert ("0" + s)[..|"0" + s| - 1] == "0" + init;
    }
  }

  /** `s.rsplit('_', 1)`: None when `s` has no underscore (a one-element
      list in the source), otherwise the text before and after the last
      underscore. */
  function RSplitUnderscore(s: string): (r: Option<(string, string)>)
    ensures r.None? <==> '_' !in s
    ensures r.Some? ==> s == r.value.0 + "_" + r.value.1 && '_' !in r.value.1
  {
    if s == [] then None
    else if s[|s| - 1] == '_' then Some((s[..|s| - 1], ""))
    else
      match RSplitUnderscore(s[..|s| - 1])
      case None => None
      case Some((before, after)) => Some((before, after + [s[|s| - 1]]))
  }

  /** The name the splitter gives to part `n` of file `name`. */
  function ChunkName(name: string, n: nat): string {
    name + "_" + Decimal(n)
  }

  /** The merger's reading of a directory entry's name: cut at the last
      underscore; the entry is a chunk only if the suffix is a non-empty
      string of digits. */
  function ParseChunkName(name: string): (r: Option<ChunkId>)
    ensures '_' !in name ==> r.None?
    ensures r.Some? ==> r.value.base + "_" <= name
  {
    match RSplitUnderscore(name)
    case None => None
    case Some((before, after)) =>
      if |after| > 0 && AllDigits(after) then Some(ChunkId(before, DecimalValue(after))) else None
  }

  /** The last underscore of `s` is unique: whenever `s` is `before + "_" +
      after` with no underscore in `after`, rsplit returns exactly that pair. */
  lemma {:induction false} RSplitAtLastUnderscore(s: string, before: string, after: string)
    requires s == before + "_" + after && '_' !in after
    ensures RSplitUnderscore(s) == Some((before, after))
    decreases |after|
  {
    if after == [] {
      assert s[..|s| - 1] == before;
    } else {
      var shorter := after[..|after| - 1];
      assert s[..|s| - 1] == before + "_" + shorter;
      assert s[|s| - 1] == after[|after| - 1];
      RSplitAtLastUnderscore(s[..|s| - 1], before, shorter);
      assert shorter + [after[|after| - 1]] == after;
    }
  }

  /** Which names the merger keeps: split at the last underscore, the name
      is a chunk exactly when the suffix is non-empty and all digits, and
      then the base is the text before the underscore and the part number
      the suffix's decimal value. */
  lemma ParseAt(name: string, before: string, after: string)
    requires name == before + "_" + after && '_' !in after
    ensures ParseChunkName(name).Some? <==> |after| > 0 && AllDigits(after)
    ensures ParseChunkName(name).Some? ==> ParseChunkName(name) == Some(ChunkId(before, DecimalValue(after)))
  {
    RSplitAtLastUnderscore(name, before, after);
  }

  /** Parsing a formatted chunk name gives back the file name and the part
      number, whatever underscores or digits the file name itself holds. */
  lemma ParseFormat(name: string, n: nat)
    ensures ParseChunkName(ChunkName(name, n)) == Some(ChunkId(name, n))
  {
    var digits := Decimal(n);
    ParseAt(ChunkName(name, n), name, digits);
    DecimalRoundTrip(n);
  }

  /** Distinct (file, part) pairs never share a chunk name. */
  lemma ChunkNameInjective(name: string, n: nat, other: string, m: nat)
    requires ChunkName(name, n) == ChunkName(other, m)
    ensures name == other && n == m
  {
    ParseFormat(name, n);
    ParseFormat(other, m);
  }

  /** Names the merger skips: no underscore, a suffix that is not a number,
      an empty suffix. */
  lemma IgnoredNames()
    ensures ParseChunkName("garbage").None?
    ensures ParseChunkName("c_x").None?
    ensures ParseChunkName("a_").None?
  {
    ParseAt("c_x", "c", "x");
    ParseAt("a_", "a", "");
  }

  /** A name kept by the merger: the cut is at the last underscore, so a
      dot in the file name is kept in the base name. */
  lemma KeptName()
    ensures ParseChunkName("a.txt_1") == Some(ChunkId("a.txt", 1))
  {
    assert "a.txt_1" == "a.txt" + "_" + "1";
    ParseAt("a.txt_1", "a.txt", "1");
    assert DecimalValue("1") == DecimalValue("") * 10 + 1;
  }

  /** Underscores inside the file name stay in the base name. */
  lemma KeptNameWithUnderscore()
    ensures ParseChunkName("a_b_3") == Some(ChunkId("a_b", 3))
  {
    assert "a_b_3" == "a_b" + "_" + "3";
    ParseAt("a_b_3", "a_b", "3");
    assert DecimalValue("3") == DecimalValue("") * 10 + 3;
  }

  /** The part number is the suffix's value, so leading zeros are dropped. */
  lemma KeptNameLeadingZero()
    ensures ParseChunkName("f_01") == Some(ChunkId("f", 1))
  {
    assert "f_01" == "f" + "_" + "01";
    ParseAt("f_01", "f", "01");
    assert "01"[..1] == "0";
    assert DecimalValue("0") == 0;
  }
}
