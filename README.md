# Conversor HTML a PDF — a verified model of its core

The service takes HTML, either inline in a request or from a file on disk, and
turns it into a PDF. Before rendering, it does three things:

- it replaces image sources with `data:` URIs;
- it pulls a header and a footer fragment out of the document with CSS selectors;
- it makes the output file name unique with a timestamp and a random number.

This project models the logic around the renderer in Dafny and proves what
each piece promises. The pieces are:

- the `DOM` class that extracts a fragment and removes it from the document in place;
- the read-only `getPart` query;
- `appendTimestampToFile`;
- the MIME lookup and data-URI assembly of `getImageAsBase64`;
- the environment defaults and their validation;
- the controller's request validation and step order.

Modules:

- `Wrappers`: `Option`, `Result` and `Outcome`, the value or error a JavaScript call returns or throws.
- `JsString`: the JavaScript string built-ins the core relies on. They are
  `lastIndexOf`, `split(c)[0]`, a global `replace` with a character class,
  `toLowerCase`, number-to-string conversion and `join`, plus the "contains
  as a substring" relation.
- `HtmlTree`: the document as a tree of elements and text.
  - Document order is preorder.
  - `querySelector` is the first node in that order that the selector matches.
  - `remove()` deletes that node's subtree.
  - `outerHTML` is the serialiser.
  - An *outline* lists each node's depth and label in document order. It is
    used to state that removal cuts out exactly one slice and changes nothing else.
- `HtmlParser`: the `DOM` class of services/htmlParser.js, a `class Dom` whose `tree` field `ExtractPart` changes.
- `HtmlQuery`: `getPart` of services/html.js, a pure function of the document.
- `StringUtils`: `appendTimestampToFile`. The ISO clock reading and the random draw are parameters.
- `ImgUtils`: POSIX `path.extname`, `getMimeType`, and the data URI of
  section 3 of RFC 2397. The base64 encoder (section 4 of RFC 4648) is a parameter.
- `Env`: config/env.js, a function from the process environment to the four constants or the error thrown.
- `PrintToPdf`: `printToPdfController`, as a method that drives one `Dom`.
  - It is proved equal to a response function `Respond`.
  - A `World` value holds everything the controller calls but the core does not define:
    - the file read;
    - the HTML parser;
    - the selector compiler;
    - image inlining;
    - the clock and the random draw;
    - the renderer.

## Model

| member | source | states |
|---|---|---|
| JsString.LastIndexOf | utils/stringUtils.js:22 | -1 exactly when the character is absent; otherwise the position holds the character and no later position does |
| JsString.BeforeFirst | utils/stringUtils.js:16 | `split(c)[0]` is a prefix without `c` that ends where the first `c` is or at the end |
| JsString.BeforeFirstStops | utils/stringUtils.js:16 | splitting `a + c + b`, when `a` has no `c`, gives exactly `a` |
| JsString.RemoveAll | utils/stringUtils.js:16 | the global replace leaves no character of the class and never lengthens the string |
| JsString.RemoveAllAppend | utils/stringUtils.js:16 | the replace works piecewise: on a concatenation it is the concatenation of the replaced parts |
| JsString.AsciiLower | utils/imgUtils.js:37 | lower-casing keeps the length and maps each character on its own |
| JsString.Decimal | utils/stringUtils.js:26 | a number prints as at least one digit, with a leading zero only for 0 itself |
| JsString.DecimalRoundTrip | utils/stringUtils.js:26 | the printed digits read back as the same number |
| JsString.JoinMentionsEach | config/env.js:25-27 | every joined value occurs in the joined string |
| HtmlTree.FirstMatch | services/htmlParser.js:51 | no earlier entry of the outline matches, and the position returned does (or is the end) |
| HtmlTree.Find | services/htmlParser.js:51 | `querySelector` only returns an element that the selector matches |
| HtmlTree.FindIsFirstInDocumentOrder | services/htmlParser.js:51 | `querySelector` finds nothing exactly when no node in document order matches; otherwise it returns the node at the first matching position |
| HtmlTree.RemoveFirst | services/htmlParser.js:62 | `querySelector(..).remove()` leaves the tree exactly as it was when nothing matches |
| HtmlTree.RemovedNodeCount | services/htmlParser.js:62 | `remove()` takes out exactly as many nodes as the first match's subtree holds, and none when nothing matches |
| HtmlTree.RemoveFirstFrame | services/htmlParser.js:62 | `remove()` of the first match: with no match the tree is unchanged; otherwise the outline loses exactly the match's subtree, and every other node keeps its label, depth and relative order, later matches included |
| HtmlTree.RemovalCut | services/htmlParser.js:62 | when something matches, the new outline is the old one with the slice of the first match's subtree cut out |
| HtmlTree.FirstMatchAfterCut | services/htmlParser.js:51 | after that slice is cut, the first match is the first one behind the slice, at its old position shifted back by the slice's length |
| HtmlTree.SecondMatchFollowsFirst | services/htmlParser.js:51-62 | a second query with the same selector, after the removal, finds the first match that follows the first match's subtree in the original order |
| HtmlTree.DocumentElement | services/htmlParser.js:77 | `documentElement` is an element among the document's children, and it is absent exactly when no child is an element |
| HtmlTree.DocumentElementSurvives | services/htmlParser.js:62-77 | after the removal a document still has a root element exactly when the match was not the root element |
| HtmlTree.OuterHtml | services/htmlParser.js:77 | `outerHTML` of character data is that data; an element's markup starts with `<` and its tag name and ends with `>` |
| HtmlTree.AttrsHtml | services/htmlParser.js:59 | the attribute text is empty exactly when there are no attributes; otherwise it starts with a space, which separates it from the tag name, and ends with a closing quote |
| HtmlTree.InnerHtmlAppend | services/htmlParser.js:59 | the markup of a sequence of nodes is their markups in order, whatever point it is split at |
| HtmlTree.DescendantMarkupOccurs | services/htmlParser.js:59 | in a well-formed tree, the markup of every node occurs inside the markup of the forest that holds it |
| HtmlTree.ChildrenMarkupOccurs | services/htmlParser.js:59 | a non-void element's markup holds its children's markup |
| HtmlTree.PreorderClosed | services/htmlParser.js:62 | every node of a found node's subtree belongs to the document, so `remove()` takes nodes of the document only |
| HtmlParser.AttrValue | services/htmlParser.js:45 | the attribute value found belongs to the element, and nothing is found exactly when no attribute has that name |
| HtmlParser.Dom.constructor | services/htmlParser.js:21-23 | the tree is what the parser builds from the HTML |
| HtmlParser.Dom.ExtractPart | services/htmlParser.js:40-65 | with no match it returns nothing and leaves the tree unchanged. Otherwise it returns `<div>` + styles + one space + the first match's markup + `</div>`, and exactly that match's subtree leaves the tree; every other node keeps its place, the collected style elements included |
| HtmlParser.Dom.GetDocument | services/htmlParser.js:76-78 | it changes nothing. It returns the root element's markup, and nothing (the call throws) exactly when the document has no element child |
| HtmlParser.IsStylesheetCarrier | services/htmlParser.js:45 | `style, link[rel='stylesheet']` matches every `style` element, and otherwise only `link` elements whose `rel` value is `stylesheet` in any ASCII letter case |
| HtmlParser.StylesheetRelIgnoresCase | services/htmlParser.js:45 | a `link` whose `rel` lower-cases to `stylesheet`, such as `rel="StyleSheet"`, is collected |
| HtmlParser.CarrierMarkup | services/htmlParser.js:44-48 | the joined markup of a list is empty exactly when no node in it is a style element or stylesheet link |
| HtmlParser.StyleMarkup | services/htmlParser.js:44-48 | the style markup of a document is empty exactly when no node anywhere in it is a style element or stylesheet link |
| HtmlParser.Fragment | services/htmlParser.js:51-59 | there is a fragment exactly when the selector matches; it is wrapped in `<div>`…`</div>` and holds both the style markup and the match's markup |
| HtmlParser.CarrierMarkupOccurs | services/htmlParser.js:44-48 | the markup of every `style` element and stylesheet `link` in the list occurs in the joined style markup |
| HtmlParser.StylesFromWholeDocument | services/htmlParser.js:44-48 | a style element or stylesheet link anywhere in the document, not only in `<head>`, is in the style markup |
| HtmlParser.MatchHoldsDescendant | services/htmlParser.js:59 | a node below the match is in the document, and its markup is inside the match's markup |
| HtmlParser.StyleInsideMatchAppearsTwice | services/htmlParser.js:44-62 | since styles are collected before removal, a style element inside the match appears twice in the fragment |
| HtmlQuery.GetPart | services/html.js:35-37 | the result is "" exactly when nothing matches |
| HtmlQuery.GetPartFirstInDocumentOrder | services/html.js:36 | `getPart` is the markup of the node at the first matching position in document order, or "" when there is none |
| StringUtils.RandomNumber | utils/stringUtils.js:19 | `Math.floor(u * 10000)` is the integer part of `u * 10000`, within 0..9999 |
| StringUtils.Timestamp | utils/stringUtils.js:16 | the timestamp holds no `-`, `:`, `T` or `.`, and is never longer than the ISO string |
| StringUtils.IsoTimestamp | utils/stringUtils.js:16 | for `YYYY-MM-DDTHH:mm:ss.sssZ` the timestamp is the 14 digits `YYYYMMDDHHmmss`, with no separator between date and time |
| StringUtils.RandomTokenDigits | utils/stringUtils.js:19 | the random part is 1 to 4 digits, with no zero padding, and reads back as the number drawn |
| StringUtils.AppendTimestampToFile | utils/stringUtils.js:13-35 | the new name is exactly `2 + timestamp + random digits` characters longer than the old one |
| StringUtils.InsertsBeforeLastDot | utils/stringUtils.js:22-34 | the new name is the old one cut at its last dot (or at its end when it has none), with `_<ts>_<r>` between the two parts; the extension keeps its dot and earlier dots stay in front |
| StringUtils.InsertionPointUnique | utils/stringUtils.js:22 | there is only one such cut point, so the old name can be recovered from the new one |
| StringUtils.NoDotAppends | utils/stringUtils.js:24-27 | a name without a dot gets `_<ts>_<r>` appended |
| StringUtils.InsertAtDot | utils/stringUtils.js:30-34 | at a dot with no dot after it, the token goes in front of the dot |
| StringUtils.InsertInDirectory | utils/stringUtils.js:22-34 | when only a directory part holds dots, the token goes in front of the directory's last dot |
| StringUtils.DotInDirectoryOnly | utils/stringUtils.js:22-34 | `dir/base`, with a dot only in `dir`, gets the token inside `dir`, in front of its last dot |
| ImgUtils.TrimTrailingSlashes | utils/imgUtils.js:37 | `extname` ignores trailing slashes: the result is a prefix not ending in `/`, and everything cut off is `/` |
| ImgUtils.LastSegment | utils/imgUtils.js:37 | the segment `extname` looks at holds no `/` |
| ImgUtils.SegmentExtension | utils/imgUtils.js:37 | the extension is empty, or it is a suffix of the segment that starts with its only dot |
| ImgUtils.Extname | utils/imgUtils.js:37 | `path.extname` is empty, or it starts with its only dot and holds no `/` |
| ImgUtils.SegmentOf | utils/imgUtils.js:37 | only the last segment of `dir/name` counts, and that segment is `name` |
| ImgUtils.ExtnameOfFileName | utils/imgUtils.js:37 | a last segment `stem.ext` has extension `.ext`, whatever dots the stem holds |
| ImgUtils.DotFileHasNoExtension | utils/imgUtils.js:37 | a segment whose only dot is its first character has no extension |
| ImgUtils.MimeOfExtension | utils/imgUtils.js:38-52 | the `switch`: a listed extension gets its type (`.jpg` and `.jpeg` both give `image/jpeg`); octet-stream comes exactly for unlisted extensions; no type contains `;` |
| ImgUtils.MimeType | utils/imgUtils.js:36-53 | `getMimeType` always answers one of exactly six strings |
| ImgUtils.KnownExtensionType | utils/imgUtils.js:37-49 | a file `stem.ext`, with `ext` a listed extension in any letter case, gets that extension's type |
| ImgUtils.LastExtensionOnly | utils/imgUtils.js:37-51 | only the final extension counts: `a.png.bak` gets `application/octet-stream` |
| ImgUtils.ExtnameLower | utils/imgUtils.js:37 | lower-casing a path lower-cases its extension and nothing more |
| ImgUtils.MimeTypeIgnoresCase | utils/imgUtils.js:37 | the MIME type of a path does not depend on letter case |
| ImgUtils.DataUri | utils/imgUtils.js:23 | the URI is `data:` and the media type, then `;base64,` and the payload, 13 characters longer than the two parts |
| ImgUtils.ParseDataUri | utils/imgUtils.js:23 | a URI that parses is exactly `data:<mime>;base64,<payload>` for the parts read back |
| ImgUtils.DataUriRoundTrip | utils/imgUtils.js:23 | the media type and payload read back from the URI built from them |
| ImgUtils.GetImageAsBase64 | utils/imgUtils.js:10-28 | the call fails exactly when `fs.access` or `fs.readFile` fails, rethrowing that same error (`access` first). On success the URI reads back as the path's MIME type and the base64 of the file's bytes |
| Env.InvalidMessage | config/env.js:24-27 | the error text opens with `Variable de entorno` and the variable's name and closes with the value found, in double quotes, and a full stop |
| Env.Setting | config/env.js:37-60 | each constant is the variable's value when it is set and non-empty, and its default otherwise |
| Env.ValidateEnvVariable | config/env.js:22-30 | it passes exactly when the value equals one of the valid values; otherwise it throws the message built from the variable name, the joined list and the value |
| Env.MessageMentions | config/env.js:24-27 | the error message names the variable, every valid value and the quoted actual value |
| Env.OrDefault | config/env.js:37 | the defaulting `or`: an unset or empty variable gives the default, any other value is kept |
| Env.LoadEnv | config/env.js:37-61 | loading succeeds exactly when `NODE_ENV` and `LOG_LEVEL` (after defaulting) are both valid, and then gives the four defaulted values. An invalid `NODE_ENV` throws first; otherwise an invalid `LOG_LEVEL` throws |
| Env.DefaultsAreValid | config/env.js:37-61 | with nothing set, loading gives `logs`, `3000`, `development` and `info` |
| Env.EmptyIsUnset | config/env.js:37-60 | a variable set to "" behaves exactly as if it were unset |
| Env.UnvalidatedSettings | config/env.js:37-44 | `PORT` and `LOGS_DIR` never decide whether loading succeeds |
| Env.CaseSensitive | config/env.js:23 | membership is exact: `Production` and `INFO` are rejected |
| PrintToPdf.PrintToPdfController | controllers/printToPdf.js:28-104 | the handler's steps in source order give exactly the response `Respond` defines |
| PrintToPdf.RunPipeline | controllers/printToPdf.js:69-98 | the steps on one mutable `Dom` give the outcome of the pipeline function. In order: parse, inline images, extract the header, extract the footer from what is left, serialise the rest, uniquify, render |
| PrintToPdf.BadRequest | controllers/printToPdf.js:42 | a request passes validation exactly when `outputPath` and at least one of `html` and `htmlSrc` are truthy |
| PrintToPdf.HasContent | controllers/printToPdf.js:51-66 | past validation, inline HTML always gives content; otherwise there is content exactly when the file read gives a non-empty string, and the 404 is sent when there is not |
| PrintToPdf.Content | controllers/printToPdf.js:51-66 | `htmlContent` is never empty: it is the inline `html` when that is truthy, otherwise exactly what the file read gave |
| PrintToPdf.OutputFileName | controllers/printToPdf.js:85 | the output path with the token appended when it has no dot, and otherwise put in front of its last dot |
| PrintToPdf.Respond | controllers/printToPdf.js:42-103 | 400 exactly for a bad request; 404 exactly when it passes validation but yields no content, naming `htmlSrc`; 200 exactly when the pipeline succeeds, quoting the uniquified name |
| PrintToPdf.QueryText | services/htmlParser.js:51 | a query that is absent reaches `querySelector` as the text `undefined`; a present one as it is |
| PrintToPdf.Options | controllers/printToPdf.js:75-95 | the options exist exactly when a root element is left after both removals, otherwise the `TypeError` of `getDocument` is thrown. They carry the header fragment of the inlined document, the footer fragment of what is left after the header's removal, the markup of the root element left after both removals, the uniquified name, and the request's `margin` and `cssPath` |
| PrintToPdf.Pipeline | controllers/printToPdf.js:69-98 | a successful run answers with the uniquified name; a throwing inlining step ends the run with its error |
| PrintToPdf.ResponseKinds | controllers/printToPdf.js:42-103 | the status is 400 exactly for a bad request, and only 200, 400, 404 or 500 occur, each with its own body |
| PrintToPdf.ValidationFirst | controllers/printToPdf.js:42-49 | a bad request gets 400 before any other step, whatever the file system, parser or renderer do |
| PrintToPdf.InlineHtmlWins | controllers/printToPdf.js:53-56 | when `html` is truthy the file named by `htmlSrc` is never read |
| PrintToPdf.NotFoundOnlyFromFile | controllers/printToPdf.js:57-64 | 404 happens exactly on the file path when the read gives nothing or an empty string |
| PrintToPdf.InliningFailureStopsPipeline | controllers/printToPdf.js:53-103 | with HTML found inline or in the file, when image inlining throws, the answer is 500 with its message and the renderer is never reached |
| PrintToPdf.ThrownAfterReadingIs500 | controllers/printToPdf.js:69-103 | once the HTML is found, the pipeline throwing an error is the same as the answer being 500 with that error's message |
| PrintToPdf.RenderFailureIs500 | controllers/printToPdf.js:88-103 | a renderer that throws gives 500 with its message |
| PrintToPdf.NoRootElementIs500 | controllers/printToPdf.js:82-103 | when the removals leave no root element, `getDocument` throws, the renderer is never reached, and the answer is 500 with the `TypeError`'s message |
| PrintToPdf.SuccessQuotesRenderedName | controllers/printToPdf.js:85-98 | on 200 the HTML was found, inlining succeeded, and the options actually built from it were rendered without error; they carried the uniquified name, and the message quotes that same name |
| PrintToPdf.SameQueryFooterIsNextMatch | controllers/printToPdf.js:75-76 | with one query for header and footer, the footer is the next match in document order after the header's subtree |
| PrintToPdf.PrinterChecks | services/printer.js:39-45 | `printToPdf` passes its argument checks exactly when `htmlSrc` and `outputPath` are both truthy |
| PrintToPdf.ArgsAsPassed | controllers/printToPdf.js:88-95 | the object the controller passes has no `htmlSrc` and carries the uniquified name as `outputPath` |
| PrintToPdf.RenderAsShown | services/printer.js:30-45 | `printToPdf` succeeds only when its argument checks pass and the browser succeeds; a failed check is the error thrown |
| PrintToPdf.InlineAsShown | controllers/printToPdf.js:72 | `dom.replaceImgSrcWithBase64()` always throws, since the class does not define it |
| PrintToPdf.RenderAsShownAlwaysFails | services/printer.js:30-41 | called with the object the controller builds (which has no `htmlSrc`), `printToPdf` always throws the missing-`htmlSrc` error |
| PrintToPdf.AsShownInliningAlways500 | controllers/printToPdf.js:72 | with `replaceImgSrcWithBase64` missing from the class, every request past validation and reading ends in 500 |
| PrintToPdf.AsShownNeverSaves | controllers/printToPdf.js:88-95 | even with a working inlining step, the renderer as shown makes a 200 impossible |

## Notes on the code

- `extractPart` collects `style` elements and stylesheet `link`s from the
  whole document, not only from `<head>` as its doc comment says. The model
  follows the code (`StylesFromWholeDocument`).
- The fragment has one space between the styles and the match. The example
  in the doc comment of `extractPart` has none. The model follows the code.
- The doc comment of `appendTimestampToFile` shows `YYYYMMDD_HHMMSS`. The
  code removes every `T` and puts no underscore between date and time
  (`IsoTimestamp`).
- The controller calls `dom.replaceImgSrcWithBase64()`, which the `DOM` class
  does not define. It also calls `printToPdf` without `htmlSrc`, which that
  function requires. As written, every request that passes validation and
  yields content (inline `html`, or a file read that gives a non-empty
  string) therefore ends in 500; a request whose file cannot be read still
  gets 404 (`AsShownInliningAlways500`, `AsShownNeverSaves`).
  The rest of the model treats both steps as abstract fallible operations, so
  the intended pipeline can be stated.

## Left out

- HTML parsing is a parameter. Well-formedness is stated only as "void elements have no children".
- The selector engine is a parameter.
  - A selector is a predicate on an element's own tag and attributes.
  - Combinators and pseudo-classes that depend on a node's context are not captured.
  - An invalid selector throwing is not modelled.
- `outerHTML` is modelled without character escaping or attribute-value quoting rules. The elements written without an end tag are the void elements of the HTML fragment serialisation algorithm (HTML Living Standard, "Serialising HTML fragments"), legacy ones included.
- Nodes other than elements and text (comments, doctype, processing instructions) are not modelled.
- `replaceImgSrcWithBase64`, which the repository does not define, is an abstract fallible step from tree to tree.
- The file read, `fs.access`, `fs.readFile`, the base64 encoder and the renderer (puppeteer) are parameters. So are `new Date().toISOString()` and `Math.random()`.
- Env.LoadEnv: its `env` map is the process environment after `import "dotenv/config"` has merged the `.env` file into it; reading and merging that file is not modelled.
- ImgUtils.Extname: models POSIX `path.extname`, where only `/` separates segments. On Windows Node uses `path.win32`, where `\` also separates segments and a drive prefix is skipped, so `C:\img\.png` is a dot file there (octet-stream) but gets `image/png` here.
- ImgUtils.GetImageAsBase64: takes the path after `path.resolve`, since resolution depends on the working directory.
- StringUtils.RandomNumber: uses exact reals for `Math.random() * 10000`. Floating-point rounding is not modelled.
- JsString.AsciiLower: lower-cases only `A`-`Z`, as the extensions compared are ASCII. `toLowerCase` on other letters is not modelled. (For the `rel` comparison, ASCII-only folding is what HTML prescribes.)
- PrintToPdf.Truthy: request fields are strings or absent. Other JSON values a body can carry (numbers, booleans, objects) are not modelled.
- Logging, Express routing, the logger configuration, the command-line helpers, `fetchFile`'s logging and the unit-conversion scripts are outside the core.
