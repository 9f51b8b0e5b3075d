/** The message selection shared by DataPointException::what and
    TSDBInterfaceException::what: a fixed prefix followed by the table's
    text for the code, with the code-0 text standing in for unknown codes. */
module Messages {

  function Describe(base: string, table: map<int, string>, code: int): (r: string)
    requires 0 in table
    ensures |r| >= |base| && r[..|base|] == base
    ensures r[|base|..] in table.Values
    ensures code in table ==> r[|base|..] == table[code]
    ensures code !in table ==> r[|base|..] == table[0]
  {
    var text := if code in table then table[code] else table[0];
    assert (base + text)[..|base|] == base && (base + text)[|base|..] == text;
    base + text
  }

  /** An unknown code reads exactly like code 0. */
  lemma UnknownReadsAsZero(base: string, table: map<int, string>, code: int)
    requires 0 in table && code !in table
    ensures Describe(base, table, code) == Describe(base, table, 0)
  {
  }

  /** When the table gives every code its own text, two known codes are
      never reported with the same message. */
  lemma KnownCodesDistinguished(base: string, table: map<int, string>, c1: int, c2: int)
    requires 0 in table && c1 in table && c2 in table && c1 != c2
    requires table[c1] != table[c2]
    ensures Describe(base, table, c1) != Describe(base, table, c2)
  {
    var r1, r2 := Describe(base, table, c1), Describe(base, table, c2);
    assert r1[|base|..] != r2[|base|..];
  }
}
