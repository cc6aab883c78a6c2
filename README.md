# tat-router in Dafny

A model of the core of tat-router, a small HTTP router for Node.js, with
proofs about it. A `Router` keeps:

- a not-found handler;
- per HTTP method, the ordered list of `Route`s registered with `addRoute`;
- per content type, the body `Parser` registered with `addParser`.

`navigate(req, res)` validates the request and the response, then strips
one trailing `/` from the pathname. It then looks up the first route of the
method whose pattern accepts the path, and, for `POST` and `PUT` only, the
first parser whose content-type key is a prefix of the request's
`content-type`. A request without a route falls back to the not-found
handler.

A `Route` compiles its template in two steps:

- it rewrites `:name?` to `?([^/]*)`;
- it then rewrites `:name` to `([^/]+)`.

`getParams` pairs the template's names with the capture groups. The text
parser records the content type, the charset and the body. The file parser
splits a multipart body on `--boundary` and records one file entry per
inner part. The validators of `throws.js` either throw `Error(message)` or
do nothing.

## Modules

- `Wrappers`: `Option` and `Result`.
- `JsValues`: the JavaScript values the code inspects. It covers truthiness, `typeof`, `in` with the prototype chain, property reads and `===`.
- `Throws`: the validators of `throws.js`, as functions returning `Pass` or `Fail(error)`.
- `Strings`: what the code does with strings: `indexOf`, `split`, `join`, `slice`, `substring` and `\w`.
- `PathTemplate`: the two `replace` passes of the `Route` constructor, the template as tokens (`Lit(c)`, `Req(name)`, `Opt(name)`), and tokens lowered to pattern atoms.
- `PathMatcher`: a backtracking matcher for the atoms. A group tries its longest piece first and `c?` tries to take its character first, as JS regular expressions do.
- `Routes`: `route.js`.
- `Parsers`: `parser/parser.js`, the `Parser` values and the request wrapper object.
- `TextParsing`: `parser/parser-text.js`.
- `FileParsing`: `parser/parser-file.js`.
- `HttpRouter`: `router.js`. `Router` is a class whose methods update its fields.
- `RouteScenarios`, `DelimitedMatch` and `FlightScenarios`: the templates of the repository's scenario tests, proved for whole families of templates and then instantiated.

## Model

| member | source | states |
|---|---|---|
| Throws.NotFunction | throws.js:14-18 | passes exactly for a function; otherwise fails with `Error(message)` |
| Throws.NotString | throws.js:27-31 | passes exactly for a string (`null` and `undefined` fail); otherwise `Error(message)` |
| Throws.EmptyString | throws.js:40-46 | passes exactly for a non-empty string; a non-string and `""` fail with the same message |
| Throws.IndexOf | throws.js:56-60 | `arr.indexOf(val)`: the first index strictly equal to `val`, or -1 exactly when there is none |
| Throws.NotInArray | throws.js:56-60 | passes exactly when some element is strictly equal to the value |
| Throws.NotDefined | throws.js:69-73 | passes exactly for truthy values |
| Throws.NotHave | throws.js:83-87 | on an object, passes exactly when the name is an own or inherited property; on a non-object, `in` throws a TypeError |
| Strings.WordRun | route.js:2 | the longest prefix of `\w` characters: all word characters, followed by a non-word character or the end |
| Strings.Find | parser/parser.js:35 | the first index where the pattern occurs, with no occurrence before it; `None` when there is no occurrence |
| Strings.IndexOf | parser/parser.js:35 | -1 exactly when there is no occurrence, otherwise the first occurrence |
| Strings.SplitOn | parser/parser.js:36 | at least one piece, and exactly one when the separator does not occur |
| Strings.JoinSplit | parser/parser-file.js:21 | joining the pieces of a split with the separator gives back the string |
| Strings.SplitPiecesAvoidSeparator | parser/parser-file.js:21 | no piece of a split contains the separator |
| Strings.SplitAtFirstChar | parser/parser.js:36 | splitting at a character puts the text before its first occurrence first |
| Strings.SplitWithoutChar | parser/parser.js:36 | a string without the separator splits into itself alone |
| Strings.SliceFrom | parser/parser.js:37 | `slice(k)`: the suffix from `k`, or `""` past the end |
| Strings.StartsWith | router.js:161 | `s.startsWith(prefix)`: the prefix is no longer than `s` and equals its first characters; used by `HttpRouter.FirstPrefix` |
| Strings.Clamp | parser/parser-file.js:33 | how `substring` treats an end: a negative end becomes 0, an end past the length becomes the length, others stay |
| Strings.Substring | parser/parser-file.js:33 | `substring(a, b)` with both ends inside the string: the slice between them, taken in either order |
| Strings.SubstringClamped | parser/parser-file.js:33 | ends outside the string act as the nearest end (a negative end as 0, an end past the length as the length), and swapping the ends changes nothing |
| PathTemplate.ReplaceOptional | route.js:4-5 | `replace(/:\w+\?/g, "?([^/]*)")`: each `:name?` becomes `?([^/]*)`, other text is copied; no contract of its own, stated by `ReplaceOptionalHead`, `ReplaceOptionalSkipsPlain` and `ReplaceChainIsRender` |
| PathTemplate.ReplaceRequired | route.js:2-3 | `replace(/:\w+/g, "([^/]+)")`: each `:name` becomes `([^/]+)`, other text is copied; no contract of its own, stated by `ReplaceRequiredSkipsPlain` and `ReplaceChainIsRender` |
| PathTemplate.ParamTokens | route.js:68 | `path.match(/:\w+/g)`, or `[]` when it is null: the `:name` tokens, colon included, left to right; no contract of its own, stated by `ParamTokensAreNames` |
| PathTemplate.Tokenize | route.js:37 | the template read as literal characters, `:name` and `:name?` tokens; no contract of its own, stated by `TokenizePlain`, `TokenizeRequired`, `TokenizeOptional` and `TokenizeWithoutParameters` |
| PathTemplate.ContainsParameter | route.js:51 | `url.match(/:\w+/g)` is non-null; no contract of its own, stated by `ContainsParameterIff` |
| PathTemplate.ReplaceChainIsRender | route.js:37 | the `replace(/:\w+\?/g, …)` then `replace(/:\w+/g, …)` chain produces the rendering of the token sequence: no replacement of the second pass straddles text from the first |
| PathTemplate.ReplaceOptionalHead | route.js:37 | the first pass keeps the first character unless an optional token starts there, when it emits `?` |
| PathTemplate.ReplaceRequiredSkipsPlain | route.js:37 | text without `:` passes through the second pass unchanged |
| PathTemplate.ReplaceOptionalSkipsPlain | route.js:37 | text without `:` passes through the first pass unchanged |
| PathTemplate.ParamTokensAreNames | route.js:68-69 | `path.match(/:\w+/g)` lists the template's parameter names, optional ones included, each behind its colon, in template order |
| PathTemplate.ContainsParameterIff | route.js:51 | `url.match(/:\w+/g)` is non-null exactly when some `:` is followed by a word character |
| PathTemplate.CompiledSourceIsRender | route.js:37 | when each optional token follows a literal character, the atoms spell out exactly the rendered pattern |
| PathTemplate.GroupsMatchNames | route.js:68-70 | the pattern has one capture group per parameter name |
| PathTemplate.TokenizePlain | route.js:37 | text without `:` reads as literal characters |
| PathTemplate.TokenizeRequired | route.js:2 | `:w` followed by neither a word character nor `?` is one required parameter |
| PathTemplate.TokenizeOptional | route.js:4 | `:w?` is one optional parameter |
| PathTemplate.TokenizeWithoutParameters | route.js:68 | a template without a `:name` token is all literal characters |
| PathMatcher.Matches | route.js:51 | `patternRegEx.test(url)` and `url.match(patternRegEx)`: the pieces of the first backtracking match, `None` when there is none; no contract of its own, stated by `MatchesSound` and `MatchesGreediest` |
| PathMatcher.Try | route.js:66 | the backtracking step: the first atom tries its longest piece first, then shorter ones; no contract of its own, stated by `TrySound` and `TryGreediest` through `Matches` |
| PathMatcher.MatchesSound | route.js:51 | every match the matcher returns cuts the url into pieces that the atoms accept |
| PathMatcher.MatchesGreediest | route.js:66 | whenever some cut fits the pattern, the matcher finds one, and it is at least as greedy, atom by atom from the left |
| PathMatcher.MatchesLiteralsOnly | route.js:37 | an all-literal pattern accepts its own text and nothing else |
| PathMatcher.PlusTakesSegment | route.js:3 | `([^/]+)` takes a whole non-empty segment when the rest then matches |
| PathMatcher.StarTakesSegment | route.js:5 | `([^/]*)` takes a whole segment, possibly empty, when the rest then matches |
| PathMatcher.OptCharTaken | route.js:5 | `c?` takes its character when it is there and the rest then matches |
| PathMatcher.LastDelimiterSplit | route.js:3 | `([^/]+)d([^/]+)` on one segment puts everything up to the last `d` in the first group |
| Routes.NewRoute | route.js:16-38 | the constructor succeeds exactly for a non-empty string path, a function handler and a pattern `new RegExp` accepts; it reports "Invalid path.", "Invalid handler." or SyntaxError, in that order |
| Routes.LeadingOptionalRejected | route.js:37 | a template that starts with `:name?` makes `new RegExp` throw, since the pattern begins with `?` |
| Routes.Match | route.js:47-52 | "Invalid url." for a non-string or empty url; `false` for a url that holds a `:name` token and equals the template |
| Routes.MatchIffFits | route.js:51 | a url matches exactly when it is non-empty, is not the verbatim template, and some cut of it fits the pattern |
| Routes.PatternSource | route.js:37 | the text between `^` and `$`: the optional pass, then the required pass; no contract of its own, `PathTemplate.ReplaceChainIsRender` and `PathTemplate.CompiledSourceIsRender` tie it to the atoms |
| Routes.ParameterlessMatchesOnlyItself | route.js:37 | for a template without parameters whose characters have no regex meaning (`PathTemplate.Supported`), the anchored pattern accepts the template itself and nothing else |
| Routes.Params | route.js:66-71 | `getParams` on a string url: each name bound to its group; a rejected url throws a TypeError unless there is no name to read, when the result is `{}`; no contract of its own, stated by `ParamsOfMatch`, `ParameterlessParams` and `ParamValuesShape` |
| Routes.ParamNames | route.js:68-69 | the names of the template's `:name` tokens, colons removed, in template order |
| Routes.BindLookup | route.js:68-71 | the keys of `params` are the names; a name not repeated later holds its own capture |
| Routes.BindValues | route.js:68-71 | every value of `params` is one of the captures |
| Routes.GroupsOf | route.js:66 | an accepted url yields one capture group per parameter name |
| Routes.GetParams | route.js:61-74 | the loop builds the map of `Params`; "Invalid url." for a non-string or empty url |
| Routes.ParamsOfMatch | route.js:61-74 | on an accepted url, each parameter name is bound, to the capture of its group |
| Routes.ParameterlessParams | route.js:68 | a template without parameters gives `{}` for every url |
| Routes.CapturesShape | route.js:3-5 | captures never contain `/`, and are non-empty without `([^/]*)` groups |
| Routes.NoStarWithoutOptional | route.js:4-5 | only an optional token lowers to `([^/]*)` |
| Routes.ParamValuesShape | route.js:70 | no parameter value spans a `/`; with only required parameters no value is empty |
| RouteScenarios.PairParams | route.js:66-71 | `a:n1` + `d` + `:n2` on `a` + `x` + `d` + `y`, where `y` holds no `d`, binds `x` (even with `d`s inside) and `y` |
| RouteScenarios.FlightsGreedySplit | test/scenario.test.js:107-115 | `/flights/:from-:to` on `/flights/TUR-SAW-ASC-5` matches with from = `TUR-SAW-ASC` and to = `5` |
| RouteScenarios.TailOptionalParams | route.js:61-74 | `a:n1` + `b` + `c:n2?` on `a` + `x` + `b`, with or without `c` + `v`, binds `x`, and `v` or `""` |
| RouteScenarios.OptionalParameterPresent | test/scenario.test.js:125-133 | `/users/:userId/posts/:postId?` on `/users/123/posts/456` gives userId 123, postId 456 |
| RouteScenarios.OptionalParameterAbsent | test/scenario.test.js:135-143 | the same template on `/users/123/posts` gives userId 123 and postId `""` |
| RouteScenarios.TwoOptionalAbsent | route.js:61-74 | `a` + `c1:n1?` + `c2:n2?` on `a` or on `a` + `c1` binds both names to `""` |
| RouteScenarios.TwoOptionalAroundDash | test/scenario.test.js:156-166 | `/users/:userId?-:orderBy?` on `/users` gives both values `""` |
| RouteScenarios.TwoOptionalAfterSlash | test/scenario.test.js:156-166 | `/users/:userId?/:orderBy?` on `/users` gives both values `""` |
| DelimitedMatch.JoinCount | route.js:37 | joining values free of `d` puts exactly one `d` between neighbours |
| DelimitedMatch.FitsCount | route.js:37 | every fitting cut needs at least one `d` per delimiter atom |
| DelimitedMatch.UniqueFit | route.js:37 | when no value holds the delimiter, the value-and-delimiter cut is the only one that fits |
| DelimitedMatch.DelimitedMatches | route.js:66 | the matcher cuts the joined values at the delimiters |
| DelimitedMatch.DelimitedParams | route.js:61-74 | `a:n0-:n1-…-:nk` on `a` + `v0-v1-…-vk`, with values free of `-`, matches and binds each name to its own value |
| FlightScenarios.FlightsExactSplit | test/scenario.test.js:97-105 | `/flights/:from-:to-:orderBy-:top` on `/flights/TUR-SAW-ASC-5` gives TUR, SAW, ASC, 5 |
| FlightScenarios.RegistrationOrderDecides | test/scenario.test.js:97-115 | registering the four-parameter route first selects it; registering the two-parameter route first selects that one instead, with from = `TUR-SAW-ASC` |
| Parsers.GetContentTypes | parser/parser-text.js:14-18 | the text parser declares exactly `text/plain`, the file parser exactly `multipart/form-data`, the base parser nothing |
| Parsers.GetCharset | parser/parser.js:33-41 | "UTF-8" when the content type has no `;` |
| Parsers.CharsetOfSecondSegment | parser/parser.js:35-37 | with a `;`, the charset is the segment after it minus its first 8 characters, `""` when that segment is no longer than 8 |
| Parsers.CharsetRoundTrip | parser/parser.js:33-41 | `type;charset=c` gives back `c` |
| Parsers.CharsetIgnoresLaterSegments | parser/parser.js:36-37 | whatever follows the next `;` does not change the charset |
| Parsers.FindCharIff | parser/parser.js:35 | `indexOf(';')` is -1 exactly when there is no `;` |
| Parsers.BodyText | parser/parser-text.js:35 | `body.toString()` throws for `undefined` and `null`; a string or Buffer gives its text |
| TextParsing.Parse | parser/parser-text.js:30-43 | the three checks fail in order with their messages; on success exactly `contentType` = `text/plain`, `charset` and `content` are written and nothing else changes; a failure changes nothing |
| TextParsing.ParseWithCharset | parser/parser-text.js:37-42 | parsing `type;charset=c` records `text/plain`, `c` and the body's text |
| FileParsing.Boundary | parser/parser-file.js:20 | throws a TypeError exactly for a non-string or a type without `;` |
| FileParsing.BoundaryOf | parser/parser-file.js:20 | `type; key=value` gives `value`, ignoring any later `;` segment |
| FileParsing.BoundaryCutAtEquals | parser/parser-file.js:20 | a value that holds `=` is cut at its first `=` |
| FileParsing.BoundaryWithoutEquals | parser/parser-file.js:20-21 | a segment without `=` makes the boundary the text "undefined" |
| FileParsing.LineRun | parser/parser-file.js:28-29 | `.*` runs to the first line terminator |
| FileParsing.FilenameMatch | parser/parser-file.js:28-30 | a captured name occurs after `filename="` and before a closing `"`, and holds no line terminator; `None` when no position matches |
| FileParsing.FilenameOfPart | parser/parser-file.js:28-30 | in `pre` + `filename="v"` + end of line, the name is `v`, inner quotes included |
| FileParsing.ContentTypeMatch | parser/parser-file.js:29-31 | `None` exactly when `Content-Type: ` does not occur; otherwise the rest of that line |
| FileParsing.ContentTypeOfPart | parser/parser-file.js:29-31 | in `pre` + `Content-Type: t` + end of line, the type is `t` |
| FileParsing.FileContent | parser/parser-file.js:33 | `part.substring(part.indexOf("\r\n\r\n") + 4, part.length - 2)`: never longer than the part |
| FileParsing.FileContentWithoutBlankLine | parser/parser-file.js:33 | without a blank line the start is 3: a part of 5 or more characters loses its first 3 and last 2; a shorter part has its ends swapped or clamped, so its content comes from before index 3 |
| FileParsing.FileContentOfPart | parser/parser-file.js:33 | the content lies between the first blank line and the part's last two characters |
| FileParsing.FileFor | parser/parser-file.js:28-41 | an entry exactly when both regular expressions match, with that name, type, content and a size equal to the content's length; otherwise a TypeError |
| FileParsing.InnerParts | parser/parser-file.js:25 | the loop visits the pieces strictly between the first and the last |
| FileParsing.Collect | parser/parser-file.js:25-42 | the loop as a fold that stops at the first throw: no more files than parts, and one per part when none threw |
| FileParsing.CollectEntries | parser/parser-file.js:25-42 | the collected files are the leading successful entries, in order; a failure is the part right after them |
| FileParsing.CollectStopsAtFailure | parser/parser-file.js:25-42 | once a part throws, later parts change nothing |
| FileParsing.Parts | parser/parser-file.js:21 | joining the pieces with `--boundary` gives back the body |
| FileParsing.CollectFiles | parser/parser-file.js:25-42 | the loop pushes the entries of the inner parts until one throws |
| FileParsing.Parse | parser/parser-file.js:17-43 | reading the body, the boundary and the wrapper throws before anything changes; otherwise `files` becomes the collected entries and nothing else changes |
| FileParsing.StoreFiles | parser/parser-file.js:23-42 | `files` is reset, then holds the entries pushed before any part threw |
| FileParsing.FilesPerPart | parser/parser-file.js:25-41 | when no part throws there is one file per inner part, two fewer than the pieces, each of the size of its content |
| HttpRouter.StringArrayCheck | router.js:59 | `notInArray` over an array of strings passes exactly for one of the strings |
| HttpRouter.MethodCheck | router.js:59 | the method check passes exactly for a name in `http.METHODS` |
| HttpRouter.NoEmptyMethod | router.js:58-59 | no method name is empty |
| HttpRouter.CheckMethod | router.js:57-59 | passes exactly for a listed method; "Invalid method." for a non-string or empty one; the long message, listing the methods, otherwise |
| HttpRouter.BindAll | router.js:77-79 | `that.#parsers[type] = parser` for each type in turn; no contract of its own, stated by `BindAllLookup` |
| HttpRouter.AddKeys | router.js:77-79 | the key order of the parser map after those assignments; no contract of its own, stated by `AddKeysOrder` |
| HttpRouter.BindAllLookup | router.js:77-79 | every declared content type is bound to the parser; other bindings are kept |
| HttpRouter.AddKeysOrder | router.js:77-79 | the old keys keep their place; new keys follow once each, and keys stay distinct |
| HttpRouter.FirstPrefix | router.js:160-165 | the first key that the content type starts with, and no earlier key is a prefix |
| HttpRouter.FirstRoute | router.js:179-193 | the first route of the list whose `match` is true, none before it matching; otherwise "The eligiable path not found." or "Invalid url." |
| HttpRouter.NormalizePath | router.js:119 | cuts one trailing `/` when the path is longer than 1, and only then |
| HttpRouter.TrailingSlashIgnored | router.js:119 | `p/` reaches the same path as `p` |
| HttpRouter.OneSlashOnly | router.js:119 | only one slash is cut: `p//` becomes `p/` |
| HttpRouter.SettleAsWritten | router.js:127-141 | as written, a resolved navigation ends in the not-found handler |
| HttpRouter.Settle | router.js:127-141 | as intended, a resolved navigation dispatches to its route |
| HttpRouter.ExecuteIsMissing | router.js:137 | every resolved navigation falls back as written but dispatches as intended |
| HttpRouter.RoutesFor | router.js:61 | the method's list, or an empty one when there is none |
| HttpRouter.RouteTableAppend | router.js:61-64 | appending built routes to a listed method keeps the route table valid |
| HttpRouter.Built | router.js:63 | one route exactly when `new Route` succeeds |
| HttpRouter.HeaderContentType | router.js:106 | `req.headers["content-type"]`: the property of an object, `undefined` for other defined values; no contract of its own, used by `Router.LookupResolved` |
| HttpRouter.AdmittedChecks | router.js:91-95 | the five checks of `navigate` pass exactly for an object request with `method`, `url` and `headers` and a truthy response |
| HttpRouter.Router.constructor | router.js:40-46 | empty route and parser tables and the given handler |
| HttpRouter.Router.Create | router.js:40-46 | "Invalid handler." exactly when the handler is not a function; otherwise an empty router |
| HttpRouter.Router.AddRoute | router.js:56-65 | a bad method changes nothing; a listed method gets its list, possibly still empty, before the route is built; a built route is appended at the end; other lists and the parsers are unchanged |
| HttpRouter.Router.AppendRoute | router.js:61-64 | the list is created if missing and the built route appended |
| HttpRouter.Router.AddParser | router.js:73-80 | a missing parser throws "Invalid parser."; the base parser throws a TypeError; otherwise each declared content type is bound to the parser, in key order |
| HttpRouter.Router.ParserFor | router.js:152-169 | no parser for methods other than POST and PUT; otherwise the parser of the first key that prefixes the content type, and a string content type that some key prefixes always gets one; "The required parser is missing." when there is none; a TypeError for a non-string content type; no other failure |
| HttpRouter.Router.GetParser | router.js:152-169 | the loop over the keys computes `ParserFor` |
| HttpRouter.Router.GetRoute | router.js:179-193 | the loop over the method's routes computes `FirstRoute` |
| HttpRouter.Router.Resolve | router.js:90-126 | a falsy or incomplete request rejects with "Invalid request object."; a non-object one with a TypeError; a falsy response with "Invalid response object." |
| HttpRouter.Router.Lookup | router.js:97-126 | what follows the checks of `navigate`; a settled outcome never dispatches; the rest is stated by `LookupResolved`, `LookupRejects` and `LookupFailuresFallBack` |
| HttpRouter.Router.LookupRejects | router.js:100-119 | a method with a list, or one naming an `Object.prototype` member, passes the first check; then `undefined` or `null` headers, a non-string url or a missing pathname reject with a TypeError; past those, a method without a list of its own ends in the not-found handler |
| HttpRouter.Router.LookupResolved | router.js:97-126 | the lookups reach a route exactly when the method has a list, the headers are defined, the url is a string and both lookups succeed |
| HttpRouter.Router.ResolvedExactly | router.js:90-126 | a navigation reaches a route exactly when every check and both lookups succeed; it then carries the first accepting route, the path without its trailing slash and the parser found |
| HttpRouter.Router.LookupFailuresFallBack | router.js:100-103 | an admitted request whose method has no list, or whose route or parser lookup fails, ends in the not-found handler |
| HttpRouter.Router.Navigate | router.js:90-142 | `navigate` ends as `Settle(Resolve(...))` |

## Left out

- Reading the request body is not modelled: the event streams of `request.js` are I/O. A parser receives the body as a value.
- `Promise.all`, `then` and `catch` are not modelled as asynchronous code. The two lookups run one after the other. Neither changes state, so the outcome is the same.
- `URL.parse` is not modelled: it is Node's library. `navigate` takes the pathname it would produce as a parameter, `None` for its `null`. Query strings are not modelled.
- `request.js` (`Request.wrap`) is not part of this model. Dispatch is modelled as the route, path and parser it selects.
- `parser/parser-json.js` and `parser/parser-form.js` are not part of this model. They wrap `JSON.parse` and `URLSearchParams`. A parser the router does not know is the `Custom` parser, with any list of content types.
- `http.METHODS` is the fixed list of Node's method names, not the library's answer.
- Buffers hold ASCII text, modelled as characters. A file's `size` is therefore the length of its content. UTF-8 byte counts are not modelled.
- `for...in` over the parser map: the keys are modelled as a list in insertion order. Integer-like keys, which JS enumerates first, are not modelled.
- Routes.NewRoute: only the `SyntaxError` of a pattern that starts with a quantifier is modelled. Other templates that `new RegExp` refuses, such as an unbalanced `(`, are treated as accepted.
- Routes.Match: the template's literal characters match only themselves. A regex metacharacter, such as the `.` of `/static/app.js`, is not given its regex meaning. An optional token that does not follow a literal character is also not modelled. The claims about matching hold for templates that `PathTemplate.Supported` admits.
- Routes.Match: its own contract covers the error paths and the verbatim-template rule. What a match means is stated by `Routes.MatchIffFits`.
- Parsers.GetCharset: its own contract covers only the case without `;`. The case with `;` is stated by `Parsers.CharsetOfSecondSegment`.
- HttpRouter.Router.Resolve: its own contract covers only the validation failures. The lookups are stated by `ResolvedExactly` and `LookupFailuresFallBack`.
- HttpRouter.Router.Resolve: a non-string `req.method` is treated as a method without a list. JS would convert it to a property key first.
- HttpRouter.Router.Resolve: a method that names an `Object.prototype` member, such as `constructor`, passes the first check, as in JS. It goes on to the headers and url checks, which can throw a TypeError. Past them it ends in the not-found handler. JS instead calls `#getRoute` on the inherited member, which rejects, with the same outcome. The model does not carry that member as a route list.
- Calling the handlers is not modelled. The result of a navigation is which handler would be called, and with what.

## Findings

| source | as written | input that shows it | evidently intended | confidence | as-written member | corrected member |
|---|---|---|---|---|---|---|
| router.js:137 | The `.then` callback calls `route.execute(request, res)`. `Route` defines no `execute`, so the call throws a TypeError. `.catch` then calls the not-found handler. | A `GET` route for `/`, and a request with `method` "GET", a url, `headers` `{}` and pathname `/`. | The found route's handler is called with the request. | not executed | HttpRouter.SettleAsWritten, HttpRouter.ExecuteIsMissing | HttpRouter.Settle, HttpRouter.Router.Navigate |
