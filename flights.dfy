/**
 * The flights routes of the repository's scenarios: with several
 * templates registered for one method, the first one that accepts the
 * path wins, so the order of registration decides how the path is cut.
 */
module FlightScenarios {
  import opened Wrappers
  import opened JsValues
  import opened Strings
  import opened PathTemplate
  import opened Routes
  import opened RouteScenarios
  import opened DelimitedMatch
  import opened HttpRouter

  const FLIGHTS_URL: string := "/flights/TUR-SAW-ASC-5"
  const FLIGHTS_2: string := "/flights/:from-:to"
  const FLIGHTS_3: string := "/flights/:from-:to-:orderBy"
  const FLIGHTS_4: string := "/flights/:from-:to-:orderBy-:top"

  const FLIGHT_NAMES: seq<string> := ["from", "to", "orderBy", "top"]
  const FLIGHT_VALUES: seq<string> := ["TUR", "SAW", "ASC", "5"]

  lemma TemplateCons(n: string, rest: seq<string>, d: char)
    requires |rest| > 0
    ensures DelimitedTemplate([n] + rest, d) == [':'] + n + ([d] + DelimitedTemplate(rest, d))
  {
    assert ([n] + rest)[1..] == rest;
  }

  lemma FlightsTemplate4()
    ensures FLIGHTS_4 == "/flights/" + DelimitedTemplate(FLIGHT_NAMES, '-')
  {
    TemplateCons("orderBy", ["top"], '-');
    assert ["orderBy"] + ["top"] == ["orderBy", "top"];
    TemplateCons("to", ["orderBy", "top"], '-');
    assert ["to"] + ["orderBy", "top"] == ["to", "orderBy", "top"];
    TemplateCons("from", ["to", "orderBy", "top"], '-');
    assert ["from"] + ["to", "orderBy", "top"] == FLIGHT_NAMES;
  }

  lemma FlightNames()
    ensures AllNames(FLIGHT_NAMES)
  {
    assert IsName("from");
    assert IsName("to");
    assert IsName("orderBy");
    assert IsName("top");
  }

  lemma FlightsValues4()
    ensures "TUR-SAW-ASC-5" == Join(FLIGHT_VALUES, "-")
  {
    JoinCons("ASC", ["5"], "-");
    assert ["ASC"] + ["5"] == ["ASC", "5"];
    JoinCons("SAW", ["ASC", "5"], "-");
    assert ["SAW"] + ["ASC", "5"] == ["SAW", "ASC", "5"];
    JoinCons("TUR", ["SAW", "ASC", "5"], "-");
    assert ["TUR"] + ["SAW", "ASC", "5"] == FLIGHT_VALUES;
  }

  lemma FlightSegments()
    ensures Segments(FLIGHT_VALUES, '-')
  {
  }

  lemma FlightsBind()
    ensures Bind(FLIGHT_NAMES, FLIGHT_VALUES) == map["from" := "TUR", "to" := "SAW", "orderBy" := "ASC", "top" := "5"]
  {
    var ns, vs := FLIGHT_NAMES, FLIGHT_VALUES;
    assert ns[..1] == ["from"] && ns[..1][..0] == [];
    assert Bind(ns[..1], vs) == map["from" := "TUR"];
    assert ns[..2] == ["from", "to"] && ns[..2][..1] == ns[..1];
    assert Bind(ns[..2], vs) == map["from" := "TUR", "to" := "SAW"];
    assert ns[..3] == ["from", "to", "orderBy"] && ns[..3][..2] == ns[..2];
    assert Bind(ns[..3], vs) == map["from" := "TUR", "to" := "SAW", "orderBy" := "ASC"];
    assert ns[..4] == ns && ns[..4][..3] == ns[..3];
  }

  lemma FlightsDelimited(path: string, url: string, names: seq<string>, values: seq<string>, handler: JsValue)
    requires names == FLIGHT_NAMES && values == FLIGHT_VALUES
    requires path == "/flights/" + DelimitedTemplate(names, '-') && url == "/flights/" + Join(values, ['-'])
    ensures Match(Route(path, handler), Str(url)) == Success(true)
    ensures Params(Route(path, handler), url) == Success(Bind(names, values))
  {
    FlightNames();
    FlightSegments();
    assert IsDelimiter('-');
    assert ':' !in "/flights/";
    DelimitedParams("/flights/", names, '-', values, handler);
  }

  /** `/flights/:from-:to-:orderBy-:top` on `/flights/TUR-SAW-ASC-5`: one value per parameter. */
  lemma FlightsExactSplit(path: string, url: string, handler: JsValue)
    requires path == FLIGHTS_4 && url == FLIGHTS_URL
    ensures Match(Route(path, handler), Str(url)) == Success(true)
    ensures Params(Route(path, handler), url) ==
      Success(map["from" := "TUR", "to" := "SAW", "orderBy" := "ASC", "top" := "5"])
  {
    FlightsTemplate4();
    FlightsValues4();
    FlightsBind();
    FlightsDelimited(path, url, FLIGHT_NAMES, FLIGHT_VALUES, handler);
  }

  /**
   * The most specific template registered first cuts the url into four
   * values; the least specific one registered first wins instead and its
   * first parameter absorbs the extra segments.
   */
  lemma RegistrationOrderDecides(pair: Route, triple: Route, quad: Route, url: string)
    requires pair.path == FLIGHTS_2 && triple.path == FLIGHTS_3 && quad.path == FLIGHTS_4 && url == FLIGHTS_URL
    ensures FirstRoute([quad, triple, pair], url) == Success(quad)
    ensures FirstRoute([pair, triple, quad], url) == Success(pair)
    ensures Params(quad, url) == Success(map["from" := "TUR", "to" := "SAW", "orderBy" := "ASC", "top" := "5"])
    ensures Params(pair, url) == Success(map["from" := "TUR-SAW-ASC", "to" := "5"])
  {
    FlightsExactSplit(quad.path, url, quad.handler);
    FlightsGreedySplit(pair.path, url, pair.handler);
  }
}
