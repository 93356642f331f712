# LinkChop edge router, in Dafny

LinkChop is a URL shortener. Before the single-page UI is served, an edge
middleware (`middleware.js`) looks at each request's pathname. It lets the
homepage `/` through, along with anything that looks like a file name (a
pathname containing `.`). For every other pathname it takes the last non-empty
`/`-separated segment as the short code. It answers with a `302 Found`
redirect to the backend resolver function
`https://cjkntiqdvzevlnyxovau.supabase.co/functions/v1/redirector/<code>`.
If no such segment exists, the request passes through as well.

The model has two modules:

- `PathSegments` (`segments.dfy`) models the JavaScript chain
  `path.split("/").filter(Boolean).pop()` as three sequence functions:
  `Split`, `NonEmpty` and `Pop`. It also gives an independent reference
  definition, `LastSegment`: skip the trailing slashes, then take the maximal
  run of non-slash characters. The chain is proved to compute exactly that.
  `Split` is also proved to be the inverse of joining with `/`.
- `Middleware` (`middleware.dfy`) models the router. `Route` maps a pathname
  to a `Response`, which is either `Next` (pass through) or
  `Redirect(target, status)`. Its contract gives the full decision in terms
  of the reference definition. Lemmas state the code's shape, how slashes
  are ignored, and that the resolver can recover the code from the target.

The input is the pathname string. `Route` has no precondition, so every
string gets exactly one response. This covers pathnames that do not start
with `/`, even though URL parsing never produces them.

The router excludes only `/` and pathnames containing `.`. There is no
reserved-prefix list. It always redirects, never rewrites, and always uses
status 302. The target is the `redirector` resolver function.

## Model

| member | source | states |
|---|---|---|
| `PathSegments.Split` | middleware.js:15 | `split("/")` returns at least one piece. No piece contains `/`. Joining the pieces with `/` gives back the original string. |
| `PathSegments.SplitJoin` | middleware.js:15 | Splitting undoes joining. If each piece of a non-empty list is slash-free, splitting the joined string returns exactly that list. |
| `PathSegments.NonEmpty` | middleware.js:15 | `filter(Boolean)` keeps every non-empty piece as often as it occurs and drops every empty one: the result's multiset is the input's with `""` removed. Every result element is non-empty. A string is in the result iff it is a non-empty member of the input. |
| `PathSegments.NonEmptyKeepsLast` | middleware.js:15 | `filter(Boolean)` keeps order at the end: if `xs[k]` is the last non-empty piece of `xs`, the filtered list is non-empty and its last element is `xs[k]`. This is the element `pop()` then returns. |
| `PathSegments.Pop` | middleware.js:15 | `pop()` gives `None` (JavaScript's `undefined`) iff the array is empty. Otherwise it gives an element of the array. |
| `PathSegments.TrailingRun` | middleware.js:15 | The result is a suffix of the input and contains no `/`. It is maximal: if it is shorter than the input, the character just before it is `/`. |
| `PathSegments.LastSegment` | middleware.js:15 | The reference short code contains no `/`. It is empty iff every character of the path is `/`. |
| `PathSegments.SplitLastIsTrailingRun` | middleware.js:15 | The last piece of `split("/")` is the trailing run of non-slash characters. |
| `PathSegments.PopNonEmptySplitIsLastSegment` | middleware.js:15 | `split("/").filter(Boolean).pop()` gives `Some(LastSegment(path))`. It gives `None` (JavaScript's `undefined`) exactly when that segment is empty. |
| `PathSegments.LastSegmentLeadingSlash` | middleware.js:15 | A leading `/` never changes the last segment. |
| `PathSegments.LastSegmentTrailingSlash` | middleware.js:15 | A trailing `/` never changes the last segment. |
| `PathSegments.LastSegmentAfterSlash` | middleware.js:15 | Appending `/` and a non-empty slash-free piece to any string makes that piece the last segment. |
| `Middleware.ExtractCode` | middleware.js:15 | The extracted code is `Some(LastSegment(path))`, or `None` when that segment is empty. An extracted code is non-empty and has no `/`. There is no code exactly when the path consists only of slashes. |
| `Middleware.TargetFor` | middleware.js:20 | The target starts with the resolver base and is longer than it. When the code is non-empty and slash-free, the last segment of the target is the code, so the resolver reads back exactly the code it was sent. |
| `Middleware.Route` | middleware.js:10-25 | It is total, with no precondition. `/` and any path containing `.` pass through. It redirects iff the path is not excluded and has a non-slash character. A redirect always has status 302, and its target is the resolver base, `/`, then the path's last non-empty segment. |
| `Middleware.RedirectCarriesCode` | middleware.js:10-22 | For a redirect, the last segment of the target equals the path's code. That code is non-empty and contains neither `/` nor `.`. |
| `Middleware.OnlySlashesPassThrough` | middleware.js:15-25 | A path made only of slashes (`""`, `"/"`, `"//"`, `"///"`, ...) passes through. |
| `Middleware.SlashesDoNotMatter` | middleware.js:10-25 | Adding a `/` at the start or the end of any path never changes the response. |
| `Middleware.SingleSegmentRedirects` | middleware.js:10-22 | A path of one non-empty segment without `/` or `.` redirects with status 302 to the resolver for exactly that segment. |
| `Middleware.SameCodeExample` | middleware.js:15-22 | `/abc`, `/abc/` and `//abc//` all give the same 302 redirect, to the resolver for `abc`. |

## Left out

- PathSegments.NonEmpty: its contract gives the filtered pieces as a multiset, not their full order. The order at the end, which is what `pop()` reads, is stated by `NonEmptyKeepsLast`. Filtering is also proved to extend by one piece at a time (`NonEmptyAppend`).
- PathSegments.Pop: its contract says only that the result is an element of the array. That the element is the last non-empty piece of the split path is stated by `PopNonEmptySplitIsLastSegment`.
- `new URL(req.url)` (middleware.js:4) is WHATWG URL parsing in the platform library. The model takes the resulting pathname as its input string. Percent-decoding and normalisation are therefore not modelled.
- `Response.next()` and `Response.redirect()` (middleware.js:11,22,25) are edge-platform primitives. They appear only as the constructors `Next` and `Redirect`.
- The `async` wrapper and the `config.matcher` pattern `"/:path*"` (middleware.js:3,29-31) are deployment wiring that the hosting platform interprets.
- Strings are sequences of Dafny characters. JavaScript's UTF-16 code units are not distinguished from code points. This does not matter here, because only `/` and `.` are compared.
- src/theme.js, src/App.jsx and src/main.jsx are styling and UI rendering with no routing logic.
- src/linkService.js forwards a link to store (target URL, short code, expiry) to the `chop_link_with_limit` remote procedure. That procedure is not part of this model. Neither is the `redirector` function that looks up a code after the router forwards it (middleware.js:20).
- Short-code hashing, expiry selection and the client cooldown timer are not part of this model.
