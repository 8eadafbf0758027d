/** A reader for URL query strings of the form `?name=value&name=value`.
    It is independent of how the request builder assembles its query and
    serves as the reference the builder's output is checked against. */
module Query {
  import opened Wrappers
  import opened Strings

  /** One query parameter: its name and its (undecoded) value. */
  datatype Param = Param(name: string, value: string)

  /** A `name=value` field, split at its first `=`; a field without `=`
      is a name with an empty value. */
  function ParseParam(field: string): (p: Param)
    ensures '=' !in p.name
    ensures '=' in field ==> field == p.name + "=" + p.value
    ensures '=' !in field ==> p == Param(field, "")
  {
    match IndexOf(field, '=')
    case None => Param(field, "")
    case Some(i) =>
      assert field == field[..i] + "=" + field[i + 1..];
      Param(field[..i], field[i + 1..])
  }

  function ParseFields(fields: seq<string>): (ps: seq<Param>)
    ensures |ps| == |fields|
    ensures forall k :: 0 <= k < |fields| ==> ps[k] == ParseParam(fields[k])
  {
    if fields == [] then [] else [ParseParam(fields[0])] + ParseFields(fields[1..])
  }

  /** The parameters of a query string: the empty query has none, a query
      must otherwise start with `?`, and its fields are separated by `&`. */
  function ParseQuery(q: string): (r: Option<seq<Param>>)
    ensures q == "" ==> r == Some([])
    ensures r.None? <==> q != "" && q[0] != '?'
  {
    if q == "" then Some([])
    else if q[0] == '?' then Some(ParseFields(Split(q[1..], '&')))
    else None
  }

  predicate HasParam(ps: seq<Param>, name: string) {
    exists k :: 0 <= k < |ps| && ps[k].name == name
  }

  /** A field `name=value` reads as that parameter. */
  lemma ParseParamOf(name: string, value: string)
    requires '=' !in name
    ensures ParseParam(name + "=" + value) == Param(name, value)
  {
    var field := name + "=" + value;
    assert field[..|name|] == name;
    IndexOfIsFirst(field, '=', |name|);
    assert field[|name| + 1..] == value;
  }

  /** A query made of `?`, an `&`-free field, `&` and the rest reads as
      that field's parameter followed by the rest's parameters. */
  lemma ParseQueryCons(field: string, rest: string)
    requires '&' !in field
    ensures ParseQuery("?" + field + "&" + rest)
         == Some([ParseParam(field)] + ParseFields(Split(rest, '&')))
  {
    var q := "?" + field + "&" + rest;
    assert q[1..] == field + "&" + rest;
    SplitCons(field, rest, '&');
    var fields := Split(rest, '&');
    assert ParseFields([field] + fields)[1..] == ParseFields(fields);
  }

  /** A query made of `?` and a single `&`-free field reads as that field's parameter. */
  lemma ParseQuerySingle(field: string)
    requires '&' !in field
    ensures ParseQuery("?" + field) == Some([ParseParam(field)])
  {
    var q := "?" + field;
    assert q[1..] == field;
    assert IndexOf(field, '&').None?;
    assert Split(field, '&') == [field];
    assert ParseFields([field]) == [ParseParam(field)];
  }

  /** A query made of `?` and two `&`-free fields joined by `&` reads as
      those two fields' parameters. */
  lemma ParseQueryPair(first: string, second: string)
    requires '&' !in first && '&' !in second
    ensures ParseQuery(("?" + first) + ("&" + second)) == Some([ParseParam(first), ParseParam(second)])
  {
    assert ("?" + first) + ("&" + second) == "?" + first + "&" + second;
    ParseQueryCons(first, second);
    assert [ParseParam(first)] + [ParseParam(second)] == [ParseParam(first), ParseParam(second)];
    assert IndexOf(second, '&').None?;
    assert Split(second, '&') == [second];
    assert ParseFields([second]) == [ParseParam(second)];
  }
}
