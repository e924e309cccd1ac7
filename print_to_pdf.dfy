/**
 * Model of `printToPdfController` (controllers/printToPdf.js): request
 * validation, the choice between inline HTML and a file, and the order of
 * the steps that follow (parse, inline images, extract the header, extract
 * the footer, serialise the rest, make the output name unique, render).
 * Everything outside the core is a parameter collected in a `World`.
 */
module PrintToPdf {
  import opened Wrappers
  import opened HtmlTree
  import opened HtmlParser
  import opened StringUtils
  import opened JsString

  /** The `margin` object, as the property names and values it carries. */
  type Margin = map<string, string>

  /** The fields of `req.body` the controller reads; an absent field is `None`. */
  datatype Request = Request(html: Option<string>, htmlSrc: Option<string>, outputPath: Option<string>,
                             headerQuery: Option<string>, footerQuery: Option<string>,
                             margin: Option<Margin>, cssPath: Option<string>)

  /** The object the controller hands to `printToPdf`. */
  datatype PrintOptions = PrintOptions(mainContent: string, outputPath: string,
                                       headerTemplate: Option<string>, footerTemplate: Option<string>,
                                       margin: Option<Margin>, cssPath: Option<string>)

  datatype Response = Response(status: int, body: string)

  /**
   * The operations the controller calls but the core does not define:
   * `fetchFile` (content or null), the HTML parser, the selector engine, the
   * image-inlining step, the clock and random draw, and `printToPdf`.
   */
  datatype World = World(readFile: string -> Option<string>,
                         parse: string -> Forest,
                         compile: string -> Selector,
                         inlineImages: Forest -> Result<Forest, string>,
                         isoNow: string,
                         random: RandomToken,
                         render: PrintOptions -> Outcome<string>)

  /** A string field is truthy when present and non-empty. */
  predicate Truthy(v: Option<string>)
  {
    v.Some? && v.value != ""
  }

  /** The validation at the top of the controller. */
  predicate BadRequest(req: Request)
    ensures !BadRequest(req) <==> Truthy(req.outputPath) && (Truthy(req.html) || Truthy(req.htmlSrc))
  {
    (!Truthy(req.html) && !Truthy(req.htmlSrc)) || !Truthy(req.outputPath)
  }

  const BadRequestBody := "Faltan parámetros obligatorios: html o htmlSrc o outputPath."

  function NotFoundBody(htmlSrc: string): string
  {
    "No se encontró el archivo HTML en " + htmlSrc
  }

  function ErrorBody(message: string): string
  {
    "Error al generar el PDF: " + message
  }

  function SavedBody(outputFileName: string): string
  {
    "PDF guardado en " + outputFileName
  }

  /** The message of the `TypeError` `getDocument` throws when the document has no root element. */
  const NoDocumentElement := "Cannot read properties of null (reading 'outerHTML')"

  /** The selector text `querySelector` receives: an absent query is stringified to "undefined". */
  function QueryText(query: Option<string>): (r: string)
    ensures query.Some? ==> r == query.value
    ensures query.None? ==> r == "undefined"
  {
    if query.None? then "undefined" else query.value
  }

  function HeaderSelector(req: Request, w: World): Selector
  {
    w.compile(QueryText(req.headerQuery))
  }

  function FooterSelector(req: Request, w: World): Selector
  {
    w.compile(QueryText(req.footerQuery))
  }

  /** The name the PDF is written under: `appendTimestampToFile(outputPath)`. */
  function OutputFileName(req: Request, w: World): (r: string)
    requires !BadRequest(req)
    ensures var name, token := req.outputPath.value, Token(w.isoNow, w.random);
      ('.' !in name ==> r == name + token) &&
      ('.' in name ==> var k := LastIndexOf(name, '.');
        0 <= k && '.' !in name[k + 1..] && r == name[..k] + token + name[k..])
  {
    AppendTimestampToFile(req.outputPath.value, w.isoNow, w.random)
  }

  /**
   * What is handed to the renderer once images are inlined into `inlined`:
   * the header is extracted first, the footer from what is left, and the
   * rest is serialised; `getDocument` throws when no root element is left.
   */
  function Options(inlined: Forest, req: Request, w: World): (r: Result<PrintOptions, string>)
    requires !BadRequest(req)
    ensures r.Success? <==>
      DocumentElement(RemoveFirst(RemoveFirst(inlined, HeaderSelector(req, w)), FooterSelector(req, w))).Some?
    ensures r.Failure? ==> r.error == NoDocumentElement
    ensures r.Success? ==> r.value.outputPath == OutputFileName(req, w) &&
                           r.value.headerTemplate == Fragment(inlined, HeaderSelector(req, w)) &&
                           r.value.margin == req.margin && r.value.cssPath == req.cssPath
    ensures r.Success? ==>
      var afterHeader := RemoveFirst(inlined, HeaderSelector(req, w));
      r.value.footerTemplate == Fragment(afterHeader, FooterSelector(req, w)) &&
      r.value.mainContent == OuterHtml(DocumentElement(RemoveFirst(afterHeader, FooterSelector(req, w))).value)
  {
    var header := Fragment(inlined, HeaderSelector(req, w));
    var afterHeader := RemoveFirst(inlined, HeaderSelector(req, w));
    var footer := Fragment(afterHeader, FooterSelector(req, w));
    var rest := RemoveFirst(afterHeader, FooterSelector(req, w));
    match DocumentElement(rest)
    case None => Failure(NoDocumentElement)
    case Some(root) =>
      Success(PrintOptions(OuterHtml(root), OutputFileName(req, w), header, footer, req.margin, req.cssPath))
  }

  /** The steps after reading: `Success` with the output name, or the message of the error thrown. */
  function Pipeline(content: string, req: Request, w: World): (r: Result<string, string>)
    requires !BadRequest(req)
    ensures r.Success? ==> r.value == OutputFileName(req, w)
    ensures w.inlineImages(w.parse(content)).Failure? ==> r == Failure(w.inlineImages(w.parse(content)).error)
  {
    match w.inlineImages(w.parse(content))
    case Failure(e) => Failure(e)
    case Success(inlined) =>
      match Options(inlined, req, w)
      case Failure(e) => Failure(e)
      case Success(opts) =>
        match w.render(opts)
        case Fail(e) => Failure(e)
        case Pass => Success(opts.outputPath)
  }

  /** The request passed validation and the HTML was found, inline or in the file `htmlSrc` names. */
  predicate HasContent(req: Request, w: World)
    ensures HasContent(req, w) ==> !BadRequest(req)
    ensures !BadRequest(req) && Truthy(req.html) ==> HasContent(req, w)
    ensures !BadRequest(req) && !Truthy(req.html) ==> (HasContent(req, w) <==> Truthy(w.readFile(req.htmlSrc.value)))
  {
    !BadRequest(req) && (Truthy(req.html) || Truthy(w.readFile(req.htmlSrc.value)))
  }

  /** `htmlContent`: the inline HTML when it is truthy, otherwise what the read gave. */
  function Content(req: Request, w: World): (r: string)
    requires HasContent(req, w)
    ensures r != ""
    ensures Truthy(req.html) ==> r == req.html.value
    ensures !Truthy(req.html) ==> w.readFile(req.htmlSrc.value) == Some(r)
  {
    if Truthy(req.html) then req.html.value else w.readFile(req.htmlSrc.value).value
  }

  /** The response the controller sends. */
  function Respond(req: Request, w: World): (r: Response)
    ensures r.status == 400 <==> BadRequest(req)
    ensures r.status == 404 <==> !BadRequest(req) && !HasContent(req, w)
    ensures r.status == 404 ==> r.body == NotFoundBody(req.htmlSrc.value)
    ensures r.status == 200 <==> HasContent(req, w) && Pipeline(Content(req, w), req, w).Success?
    ensures r.status == 200 ==> r.body == SavedBody(OutputFileName(req, w))
  {
    if BadRequest(req) then Response(400, BadRequestBody)
    else if !Truthy(req.html) && !Truthy(w.readFile(req.htmlSrc.value)) then
      Response(404, NotFoundBody(req.htmlSrc.value))
    else
      match Pipeline(Content(req, w), req, w)
      case Failure(e) => Response(500, ErrorBody(e))
      case Success(name) => Response(200, SavedBody(name))
  }

  /** `printToPdfController`: the steps in source order over one mutable `Dom`. */
  method PrintToPdfController(req: Request, w: World) returns (resp: Response)
    ensures resp == Respond(req, w)
  {
    if (!Truthy(req.html) && !Truthy(req.htmlSrc)) || !Truthy(req.outputPath) {
      return Response(400, BadRequestBody);
    }
    var htmlContent: string;
    if Truthy(req.html) {
      htmlContent := req.html.value;
    } else {
      var fetched := w.readFile(req.htmlSrc.value);
      if !Truthy(fetched) {
        return Response(404, NotFoundBody(req.htmlSrc.value));
      }
      htmlContent := fetched.value;
    }
    var outcome := RunPipeline(htmlContent, req, w);
    match outcome {
      case Failure(e) => return Response(500, ErrorBody(e));
      case Success(outputFileName) => return Response(200, SavedBody(outputFileName));
    }
  }

  /** The body of the controller's `try` after reading: one `Dom` changed step by step. */
  method RunPipeline(htmlContent: string, req: Request, w: World) returns (outcome: Result<string, string>)
    requires !BadRequest(req)
    ensures outcome == Pipeline(htmlContent, req, w)
  {
    var dom := new Dom(htmlContent, w.parse);
    // `dom.replaceImgSrcWithBase64()`: an abstract step that replaces the tree or throws.
    var inlined := w.inlineImages(dom.tree);
    if inlined.Failure? {
      return Failure(inlined.error);
    }
    dom.tree := inlined.value;
    var headerTemplate := dom.ExtractPart(HeaderSelector(req, w));
    var footerTemplate := dom.ExtractPart(FooterSelector(req, w));
    var mainContent := dom.GetDocument();
    ghost var expected := Options(inlined.value, req, w);
    if mainContent.None? {
      assert expected == Failure(NoDocumentElement);
      return Failure(NoDocumentElement);
    }
    var outputFileName := AppendTimestampToFile(req.outputPath.value, w.isoNow, w.random);
    var opts := PrintOptions(mainContent.value, outputFileName, headerTemplate, footerTemplate,
                             req.margin, req.cssPath);
    assert expected == Success(opts);
    var printed := w.render(opts);
    if printed.Fail? {
      return Failure(printed.error);
    }
    return Success(outputFileName);
  }

  /** The handler only ever answers 200, 400, 404 or 500, each with its own kind of body. */
  lemma ResponseKinds(req: Request, w: World)
    ensures var r := Respond(req, w);
      (r.status == 400 <==> BadRequest(req)) &&
      (r.status == 400 ==> r.body == BadRequestBody) &&
      (r.status == 404 ==> r.body == NotFoundBody(req.htmlSrc.value)) &&
      (r.status == 500 ==> exists e :: r.body == ErrorBody(e)) &&
      (r.status == 200 ==> exists n :: r.body == SavedBody(n)) &&
      r.status in {200, 400, 404, 500}
  {
    var r := Respond(req, w);
    if HasContent(req, w) {
      match Pipeline(Content(req, w), req, w)
      case Failure(e) => assert r.body == ErrorBody(e);
      case Success(n) => assert r.body == SavedBody(n);
    }
  }

  /** Validation comes before any other step: a bad request gets 400 whatever the world does. */
  lemma ValidationFirst(req: Request, w1: World, w2: World)
    requires BadRequest(req)
    ensures Respond(req, w1) == Respond(req, w2) == Response(400, BadRequestBody)
  {
  }

  /** Inline HTML wins: when `html` is truthy, the file `htmlSrc` names is never read. */
  lemma InlineHtmlWins(req: Request, w: World, readFile: string -> Option<string>)
    requires !BadRequest(req) && Truthy(req.html)
    ensures Respond(req, w) == Respond(req, w.(readFile := readFile))
  {
    assert Pipeline(req.html.value, req, w) == Pipeline(req.html.value, req, w.(readFile := readFile)) by {
      OptionsIgnoreReadFile(req, w, readFile);
    }
  }

  lemma OptionsIgnoreReadFile(req: Request, w: World, readFile: string -> Option<string>)
    requires !BadRequest(req)
    ensures forall t :: Options(t, req, w) == Options(t, req, w.(readFile := readFile))
  {
  }

  /** 404 comes only from the file path, exactly when the read gives nothing or an empty file. */
  lemma NotFoundOnlyFromFile(req: Request, w: World)
    ensures Respond(req, w).status == 404 <==>
      !BadRequest(req) && !Truthy(req.html) && !Truthy(w.readFile(req.htmlSrc.value))
  {
    ResponseKinds(req, w);
  }

  /**
   * Images are inlined before anything is extracted: when inlining fails,
   * the answer is 500 with its message and the renderer is never reached.
   */
  lemma InliningFailureStopsPipeline(req: Request, w: World, render: PrintOptions -> Outcome<string>, e: string)
    requires HasContent(req, w)
    requires w.inlineImages(w.parse(Content(req, w))) == Failure(e)
    ensures Respond(req, w) == Respond(req, w.(render := render)) == Response(500, ErrorBody(e))
  {
  }

  /**
   * Whatever is thrown after the HTML is found becomes 500 with that error's
   * message, and a 500 carries exactly the message of the error thrown.
   */
  lemma ThrownAfterReadingIs500(req: Request, w: World, e: string)
    requires HasContent(req, w)
    ensures Pipeline(Content(req, w), req, w) == Failure(e) <==> Respond(req, w) == Response(500, ErrorBody(e))
  {
    if Respond(req, w) == Response(500, ErrorBody(e)) {
      var e' := Pipeline(Content(req, w), req, w).error;
      assert ErrorBody(e') == ErrorBody(e);
      ErrorBodyInjective(e', e);
    }
  }

  lemma ErrorBodyInjective(e1: string, e2: string)
    requires ErrorBody(e1) == ErrorBody(e2)
    ensures e1 == e2
  {
    var n := |"Error al generar el PDF: "|;
    assert e1 == ErrorBody(e1)[n..];
    assert e2 == ErrorBody(e2)[n..];
  }

  /** A renderer that throws gives 500 with its message. */
  lemma RenderFailureIs500(req: Request, w: World, inlined: Forest, e: string)
    requires HasContent(req, w)
    requires w.inlineImages(w.parse(Content(req, w))) == Success(inlined)
    requires Options(inlined, req, w).Success? && w.render(Options(inlined, req, w).value) == Fail(e)
    ensures Respond(req, w) == Response(500, ErrorBody(e))
  {
  }

  /**
   * When the header and footer removals leave no root element, `getDocument`
   * throws its `TypeError`, the renderer is never reached, and the answer is 500.
   */
  lemma NoRootElementIs500(req: Request, w: World, inlined: Forest, render: PrintOptions -> Outcome<string>)
    requires HasContent(req, w)
    requires w.inlineImages(w.parse(Content(req, w))) == Success(inlined)
    requires DocumentElement(RemoveFirst(RemoveFirst(inlined, HeaderSelector(req, w)), FooterSelector(req, w))).None?
    ensures Respond(req, w) == Respond(req, w.(render := render)) == Response(500, ErrorBody(NoDocumentElement))
  {
  }

  /**
   * On success the renderer was given options whose output path is the
   * uniquified name, and the message quotes that same name.
   */
  lemma SuccessQuotesRenderedName(req: Request, w: World)
    requires Respond(req, w).status == 200
    ensures HasContent(req, w)
    ensures var inl := w.inlineImages(w.parse(Content(req, w)));
      inl.Success? && Options(inl.value, req, w).Success? &&
      var opts := Options(inl.value, req, w).value;
      w.render(opts).Pass? && opts.outputPath == OutputFileName(req, w) &&
      Respond(req, w).body == SavedBody(opts.outputPath)
  {
    var inl := w.inlineImages(w.parse(Content(req, w)));
    assert Pipeline(Content(req, w), req, w).Success?;
    assert inl.Success?;
  }

  /**
   * With one query for header and footer, the footer is built from the next
   * match: the first match in document order after the header's subtree.
   */
  lemma SameQueryFooterIsNextMatch(req: Request, w: World, inlined: Forest)
    requires !BadRequest(req) && req.headerQuery == req.footerQuery
    requires Find(inlined, HeaderSelector(req, w)).Some?
    ensures var sel, o := HeaderSelector(req, w), Outline(inlined, 0);
      var i := FirstMatch(o, sel);
      var afterHeader := RemoveFirst(inlined, sel);
      i < |o| == |Preorder(inlined)| &&
      var k := Size(Preorder(inlined)[i]);
      i + k <= |o| &&
      (Options(inlined, req, w).Success? ==> Options(inlined, req, w).value.footerTemplate == Fragment(afterHeader, sel)) &&
      FirstMatch(Outline(afterHeader, 0), sel) == i + FirstMatch(o[i + k..], sel)
  {
    SecondMatchFollowsFirst(inlined, HeaderSelector(req, w));
  }

  /** `dom.replaceImgSrcWithBase64()` as shown: the class has no such method, so the call throws. */
  function InlineAsShown(t: Forest): (r: Result<Forest, string>)
    ensures r.Failure? && r.error == "dom.replaceImgSrcWithBase64 is not a function"
  {
    Failure("dom.replaceImgSrcWithBase64 is not a function")
  }

  /** The keys services/printer.js destructures from its argument. */
  datatype PrinterArgs = PrinterArgs(htmlSrc: Option<string>, outputPath: Option<string>)

  /** The object literal the controller passes has no `htmlSrc` key. */
  function ArgsAsPassed(opts: PrintOptions): (r: PrinterArgs)
    ensures r.htmlSrc.None? && r.outputPath == Some(opts.outputPath)
  {
    PrinterArgs(None, Some(opts.outputPath))
  }

  /** The argument checks at the top of `printToPdf` in services/printer.js. */
  function PrinterChecks(args: PrinterArgs): (r: Outcome<string>)
    ensures r.Pass? <==> Truthy(args.htmlSrc) && Truthy(args.outputPath)
  {
    if !Truthy(args.htmlSrc) then Fail("No se incluyó la ruta del HTML (htmlSrc)")
    else if !Truthy(args.outputPath) then Fail("No se incluyó la 'outputPath' del PDF")
    else Pass
  }

  /** `printToPdf` as called: its checks, then the browser (`puppeteer`) when they pass. */
  function RenderAsShown(puppeteer: PrintOptions -> Outcome<string>, opts: PrintOptions): (r: Outcome<string>)
    ensures r.Pass? ==> PrinterChecks(ArgsAsPassed(opts)).Pass? && puppeteer(opts).Pass?
    ensures PrinterChecks(ArgsAsPassed(opts)).Fail? ==> r == PrinterChecks(ArgsAsPassed(opts))
  {
    match PrinterChecks(ArgsAsPassed(opts))
    case Fail(e) => Fail(e)
    case Pass => puppeteer(opts)
  }

  /** The renderer as shown rejects every call the controller makes. */
  lemma RenderAsShownAlwaysFails(puppeteer: PrintOptions -> Outcome<string>, opts: PrintOptions)
    ensures RenderAsShown(puppeteer, opts) == Fail("No se incluyó la ruta del HTML (htmlSrc)")
  {
  }

  /** As shown, every request that passes validation and reading ends in 500: inlining throws first. */
  lemma AsShownInliningAlways500(req: Request, readFile: string -> Option<string>, parse: string -> Forest,
                                 compile: string -> Selector, isoNow: string, random: RandomToken,
                                 render: PrintOptions -> Outcome<string>)
    requires !BadRequest(req) && (Truthy(req.html) || Truthy(readFile(req.htmlSrc.value)))
    ensures Respond(req, World(readFile, parse, compile, InlineAsShown, isoNow, random, render))
         == Response(500, ErrorBody("dom.replaceImgSrcWithBase64 is not a function"))
  {
  }

  /** Even with a working inlining step, the renderer as shown makes success impossible. */
  lemma AsShownNeverSaves(req: Request, readFile: string -> Option<string>, parse: string -> Forest,
                          compile: string -> Selector, inlineImages: Forest -> Result<Forest, string>,
                          isoNow: string, random: RandomToken, puppeteer: PrintOptions -> Outcome<string>)
    ensures var w := World(readFile, parse, compile, inlineImages, isoNow, random,
                           opts => RenderAsShown(puppeteer, opts));
      Respond(req, w).status != 200
  {
    var w := World(readFile, parse, compile, inlineImages, isoNow, random,
                   opts => RenderAsShown(puppeteer, opts));
    forall opts: PrintOptions
      ensures w.render(opts).Fail?
    {
      RenderAsShownAlwaysFails(puppeteer, opts);
    }
  }
}
