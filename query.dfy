/** The query parser of `handle_calc`: `sscanf(query, "a=%d&b=%d", &a, &b)` with
    both operands set to 0 beforehand. */
module CalcQuery {
  import opened Bytes
  import opened Decimal

  /** The operands `handle_calc` ends up with for a query string. The literal parts
      of the format must match byte for byte; each `%d` is `ScanDecimal`. The scan
      stops at the first failure, and an operand it does not reach keeps its 0. */
  function ScanQuery(query: Bytes): (operands: (int, int))
    ensures StartsWith(query, "a=") && ScanDecimal(query[2..]).Some? ==>
      operands.0 == ScanDecimal(query[2..]).value.n
    ensures operands.1 != 0 ==> StartsWith(query, "a=") && ScanDecimal(query[2..]).Some?
  {
    if !StartsWith(query, "a=") then (0, 0)
    else match ScanDecimal(query[2..])
      case None => (0, 0)
      case Some(first) => (first.n, ScanSecond(query[2 + first.used..]))
  }

  /** The rest of the format, `&b=%d`, on what follows the first conversion: the
      value `b` ends up with. */
  function ScanSecond(after: Bytes): int
  {
    if !StartsWith(after, "&b=") then 0
    else match ScanDecimal(after[3..])
      case None => 0
      case Some(second) => second.n
  }

  /** A query of the full form `a=<x>&b=<y>` yields both operands, whatever follows
      (the rest of the request line, say), as long as no digit extends `y`. */
  lemma ScanQueryBoth(x: int, y: int, rest: Bytes)
    requires rest == [] || !IsDigit(rest[0])
    ensures ScanQuery("a=" + IntToString(x) + "&b=" + IntToString(y) + rest) == (x, y)
  {
    var xs, ys := IntToString(x), IntToString(y);
    var tail := "&b=" + ys + rest;
    assert "a=" + xs + "&b=" + ys + rest == "a=" + xs + tail;
    ScanIntToString(x, tail);
    ScanFirst(xs, x, tail);
    ScanIntToString(y, rest);
    ScanSecondOf(ys, y, rest);
  }

  /** When `a=<x>` is not followed by `&b=`, only `a` is set: `b` stays 0. */
  lemma ScanQueryOnlyA(x: int, rest: Bytes)
    requires rest == [] || !IsDigit(rest[0])
    requires !StartsWith(rest, "&b=")
    ensures ScanQuery("a=" + IntToString(x) + rest) == (x, 0)
  {
    ScanIntToString(x, rest);
    ScanFirst(IntToString(x), x, rest);
  }

  /** When `&b=` is there but no integer follows it, `a` is set and `b` stays 0. */
  lemma ScanQueryMalformedB(x: int, rest: Bytes)
    requires ScanDecimal(rest).None?
    ensures ScanQuery("a=" + IntToString(x) + "&b=" + rest) == (x, 0)
  {
    var xs := IntToString(x);
    var tail := "&b=" + rest;
    assert "a=" + xs + "&b=" + rest == "a=" + xs + tail;
    ScanIntToString(x, tail);
    ScanFirst(xs, x, tail);
    assert tail[..3] == "&b=" && tail[3..] == rest;
  }

  /** After `a=`, a field that `%d` reads in full sets `a`, and the scan goes on
      with the rest of the format on what follows the field. */
  lemma ScanFirst(xs: Bytes, x: int, tail: Bytes)
    requires ScanDecimal(xs + tail) == Some(Scanned(x, |xs|))
    ensures ScanQuery("a=" + xs + tail) == (x, ScanSecond(tail))
  {
    var q := "a=" + xs + tail;
    assert q[..2] == "a=" && q[2..] == xs + tail;
    assert q[2 + |xs|..] == tail;
  }

  /** After `&b=`, a field that `%d` reads in full sets `b`. */
  lemma ScanSecondOf(ys: Bytes, y: int, rest: Bytes)
    requires ScanDecimal(ys + rest) == Some(Scanned(y, |ys|))
    ensures ScanSecond("&b=" + ys + rest) == y
  {
    var tail := "&b=" + ys + rest;
    assert tail[..3] == "&b=" && tail[3..] == ys + rest;
  }

  /** When the query does not start with `a=` followed by an integer, the scan fails
      at once and both operands stay 0. */
  lemma ScanQueryNoA(query: Bytes)
    requires !StartsWith(query, "a=") || ScanDecimal(query[2..]).None?
    ensures ScanQuery(query) == (0, 0)
  {
  }
}
