/** The request-body consumption state machine: which kinds of body a
    request may still be read as once it was read as some kind, how the kind
    is chosen from the Content-Type header, and the Content-Length limit.

    The body values themselves (JSON, URL-encoded forms, multipart readers,
    streams) are not modelled; a read is described by the kind it returns
    and whether its value will reject for exceeding the limit. `isMediaType`
    and `parseInt` are parameters: `matches(contentType, list)` and
    `parseInt(text)` (`None` for NaN). */
module RequestBodies {
  import opened Results

  const DefaultLimit: int := 10485760
  const DefaultJson: seq<string> := ["json", "application/*+json", "application/csp-report"]
  const DefaultForm: seq<string> := ["urlencoded"]
  const DefaultFormData: seq<string> := ["multipart"]
  const DefaultText: seq<string> := ["text"]

  /** The request's `#type`: unset until the first read, then the kind the
      body was consumed as. */
  datatype Tag = Unset | ReaderTag | StreamTag | FormDataTag | BytesTag | UndefinedTag

  /** The tag as the string `RequestBody` stores in its `#type` field (and
      puts in its messages). */
  function TagName(t: Tag): string {
    match t
    case Unset => ""
    case ReaderTag => "reader"
    case StreamTag => "stream"
    case FormDataTag => "form-data"
    case BytesTag => "bytes"
    case UndefinedTag => "undefined"
  }

  /** The `contentTypes` option: each list is present or absent. */
  datatype ContentTypes = ContentTypes(
    bytes: Option<seq<string>>,
    json: Option<seq<string>>,
    form: Option<seq<string>>,
    formData: Option<seq<string>>,
    text: Option<seq<string>>)

  const NoContentTypes := ContentTypes(None, None, None, None, None)

  /** `Object.keys(contentTypes).length`. */
  function KeyCount(ct: ContentTypes): nat {
    (if ct.bytes.Some? then 1 else 0) + (if ct.json.Some? then 1 else 0)
    + (if ct.form.Some? then 1 else 0) + (if ct.formData.Some? then 1 else 0)
    + (if ct.text.Some? then 1 else 0)
  }

  /** `list ?? []`. */
  function OrEmpty(list: Option<seq<string>>): seq<string> {
    if list.Some? then list.value else []
  }

  /** The request headers the body consults. */
  datatype Headers = Headers(contentType: Option<string>, contentLength: Option<string>, contentEncoding: Option<string>)

  /** The request: whether it has a body, its headers and its tag. */
  datatype Request = Request(hasBody: bool, headers: Headers, tag: Tag)

  /** A read only succeeds as reader or stream when there is a body, so
      those two tags are only ever set on requests with one. */
  predicate Valid(req: Request) {
    (req.tag == ReaderTag || req.tag == StreamTag) ==> req.hasBody
  }

  datatype Limit = Finite(n: int) | Infinity

  /** The `type` a caller asks for, classified: none (absent, or the empty
      string, which is just as falsy), one of the names `RequestBody`
      knows, or any other string. */
  datatype Kind = Untyped | Reader | Stream | FormData | Form | Json | Bytes | Text | Undefined | Other(name: string)

  /** The string a kind stands for. */
  function KindName(k: Kind): string {
    match k
    case Untyped => ""
    case Reader => "reader"
    case Stream => "stream"
    case FormData => "form-data"
    case Form => "form"
    case Json => "json"
    case Bytes => "bytes"
    case Text => "text"
    case Undefined => "undefined"
    case Other(name) => name
  }

  /** Classifies a `type` string. */
  function KindOf(s: string): (k: Kind)
    ensures KindName(k) == s
    ensures k.Other? ==> s !in ["", "reader", "stream", "form-data", "form", "json", "bytes", "text", "undefined"]
  {
    if s == "" then Untyped
    else if s == "reader" then Reader
    else if s == "stream" then Stream
    else if s == "form-data" then FormData
    else if s == "form" then Form
    else if s == "json" then Json
    else if s == "bytes" then Bytes
    else if s == "text" then Text
    else if s == "undefined" then Undefined
    else Other(s)
  }

  /** The names `RequestBody` gives a meaning of its own. */
  const KnownNames: seq<string> := ["", "reader", "stream", "form-data", "form", "json", "bytes", "text", "undefined"]

  /** A kind some `type` string classifies as: `Other` only for a name
      outside the known ones. */
  predicate Classified(k: Kind) {
    KindOf(KindName(k)) == k
  }

  /** Exactly the kinds other than `Other` of a known name are what a
      string classifies as; classifying their name gives them back. */
  lemma KindRoundTrip(k: Kind)
    ensures Classified(k) <==> !(k.Other? && k.name in KnownNames)
  {
  }

  /** A requested type as it can arrive: the classification of a string. */
  type TypeOption = k: Kind | Classified(k) witness Untyped

  /** The `get()` options, with the requested type classified. */
  datatype GetOptions = GetOptions(limit: Option<Limit>, typ: TypeOption, contentTypes: ContentTypes)

  /** What the returned body's `value` gives: a reader, a stream, nothing,
      a rejection for exceeding the limit, the parsed content, or a
      multipart reader. */
  datatype Value = ReaderValue | StreamValue | NoValue | LimitExceeded(limit: Limit) | Content | FormDataValue

  datatype Body = Body(typ: Kind, value: Value)

  datatype Thrown = TypeError(message: string) | UnsupportedMediaType(message: string) | AssertionError(message: string)

  /** A `get()` call either returns a body or throws. */
  datatype Outcome = Returned(body: Body) | Threw(error: Thrown)

  // ---------------------------------------------------------------------
  // Choosing the kind from the Content-Type

  /** `resolveType`: a custom bytes list (when supplied) wins, then json,
      form, form-data and text, each default list extended by the custom
      one; anything else is read as bytes. */
  function ResolveType(contentType: string, ct: ContentTypes, matches: (string, seq<string>) -> bool): (r: Kind)
    ensures r in [Bytes, Json, Form, FormData, Text]
  {
    if ct.bytes.Some? && matches(contentType, ct.bytes.value) then Bytes
    else if matches(contentType, DefaultJson + OrEmpty(ct.json)) then Json
    else if matches(contentType, DefaultForm + OrEmpty(ct.form)) then Form
    else if matches(contentType, DefaultFormData + OrEmpty(ct.formData)) then FormData
    else if matches(contentType, DefaultText + OrEmpty(ct.text)) then Text
    else Bytes
  }

  /** The candidate kinds after the custom bytes list, in the order they
      are tried, with their lists. */
  function DefaultCandidates(ct: ContentTypes): seq<(Kind, seq<string>)> {
    [(Json, DefaultJson + OrEmpty(ct.json)),
     (Form, DefaultForm + OrEmpty(ct.form)),
     (FormData, DefaultFormData + OrEmpty(ct.formData)),
     (Text, DefaultText + OrEmpty(ct.text))]
  }

  /** Every candidate kind in the order it is tried. */
  function Candidates(ct: ContentTypes): seq<(Kind, seq<string>)> {
    (if ct.bytes.Some? then [(Bytes, ct.bytes.value)] else []) + DefaultCandidates(ct)
  }

  /** A reference reading of the priority rule: the kind of the first
      candidate whose list matches, or `fallback` when none does. */
  function FirstMatch(contentType: string, cands: seq<(Kind, seq<string>)>,
                      matches: (string, seq<string>) -> bool, fallback: Kind): (r: Kind)
    ensures r == fallback || exists i :: 0 <= i < |cands| && r == cands[i].0
  {
    if |cands| == 0 then fallback
    else if matches(contentType, cands[0].1) then cands[0].0
    else FirstMatch(contentType, cands[1..], matches, fallback)
  }

  /** The first match never skips a matching candidate, and with none
      matching it is the fallback. */
  lemma {:induction false} FirstMatchIsFirst(contentType: string, cands: seq<(Kind, seq<string>)>,
                                             matches: (string, seq<string>) -> bool, fallback: Kind, k: nat)
    requires k <= |cands|
    requires forall i :: 0 <= i < k ==> !matches(contentType, cands[i].1)
    requires k < |cands| ==> matches(contentType, cands[k].1)
    ensures FirstMatch(contentType, cands, matches, fallback) == if k < |cands| then cands[k].0 else fallback
    decreases k
  {
    if k > 0 {
      assert !matches(contentType, cands[0].1);
      FirstMatchIsFirst(contentType, cands[1..], matches, fallback, k - 1);
    }
  }

  /** `resolveType` is exactly the first-match rule over the candidates in
      priority order, falling back to bytes. */
  lemma ResolveIsFirstMatch(contentType: string, ct: ContentTypes, matches: (string, seq<string>) -> bool)
    ensures ResolveType(contentType, ct, matches) == FirstMatch(contentType, Candidates(ct), matches, Bytes)
  {
    var cands := Candidates(ct);
    var defaults := DefaultCandidates(ct);
    if ct.bytes.Some? {
      assert cands[0] == (Bytes, ct.bytes.value);
      assert cands[1..] == defaults;
    } else {
      assert cands == defaults;
    }
    var k: nat := if matches(contentType, defaults[0].1) then 0
      else if matches(contentType, defaults[1].1) then 1
      else if matches(contentType, defaults[2].1) then 2
      else if matches(contentType, defaults[3].1) then 3
      else 4;
    FirstMatchIsFirst(contentType, defaults, matches, Bytes, k);
  }

  /** Without custom lists the default lists decide, json first. */
  lemma DefaultsDecide(contentType: string, matches: (string, seq<string>) -> bool)
    ensures var r := ResolveType(contentType, NoContentTypes, matches);
      && (matches(contentType, DefaultJson) ==> r == Json)
      && (r == Form ==> !matches(contentType, DefaultJson) && matches(contentType, DefaultForm))
      && (r == Bytes <==> (!matches(contentType, DefaultJson) && !matches(contentType, DefaultForm)
            && !matches(contentType, DefaultFormData) && !matches(contentType, DefaultText)))
  {
    assert DefaultJson + [] == DefaultJson && DefaultForm + [] == DefaultForm;
    assert DefaultFormData + [] == DefaultFormData && DefaultText + [] == DefaultText;
  }

  // ---------------------------------------------------------------------
  // The Content-Length limit

  /** `#exceedsLimit(limit)`. */
  function ExceedsLimit(req: Request, limit: Limit, parseInt: string -> Option<int>): (r: bool)
    ensures (limit == Finite(0) || limit == Infinity || !req.hasBody) ==> !r
    ensures limit.Finite? && limit.n != 0 && req.hasBody ==>
      (r <==> (req.headers.contentLength.None? || req.headers.contentLength.value == ""
               || parseInt(req.headers.contentLength.value).None?
               || parseInt(req.headers.contentLength.value).value > limit.n))
  {
    if limit == Finite(0) || limit == Infinity then false
    else if !req.hasBody then false
    else match req.headers.contentLength
      case None => true
      case Some(text) =>
        if text == "" then true
        else match parseInt(text)
          case None => true
          case Some(parsed) => parsed > limit.n
  }

  /** Raising a non-zero limit never makes a body exceed it. */
  lemma ExceedsLimitMonotone(req: Request, n: int, m: int, parseInt: string -> Option<int>)
    requires n != 0 && m != 0 && n <= m
    ensures ExceedsLimit(req, Finite(m), parseInt) ==> ExceedsLimit(req, Finite(n), parseInt)
  {
  }

  // ---------------------------------------------------------------------
  // Reads

  /** The kinds read from the buffered bytes of the body. */
  predicate ByteBacked(k: Kind) {
    k == Form || k == Json || k == Bytes || k == Text
  }

  /** `#parse(type, limit)`: the byte-backed kinds tag the request "bytes"
      and check the limit, form-data tags it "form-data"; any other type is
      refused and leaves the tag alone. */
  function Parse(req: Request, typ: Kind, limit: Limit, parseInt: string -> Option<int>): (r: (Request, Outcome))
    ensures r.0.hasBody == req.hasBody && r.0.headers == req.headers
    ensures ByteBacked(typ) ==>
      && r.0.tag == BytesTag && r.1.Returned? && r.1.body.typ == typ
      && (r.1.body.value == LimitExceeded(limit) <==> ExceedsLimit(req, limit, parseInt))
      && (r.1.body.value.LimitExceeded? || r.1.body.value == Content)
    ensures typ == FormData ==> r.0.tag == FormDataTag && r.1 == Returned(Body(typ, FormDataValue))
    ensures !ByteBacked(typ) && typ != FormData ==>
      r == (req, Threw(TypeError("Invalid body type: \"" + KindName(typ) + "\"")))
  {
    if ByteBacked(typ) then
      var req' := req.(tag := BytesTag);
      var value := if ExceedsLimit(req', limit, parseInt) then LimitExceeded(limit) else Content;
      (req', Returned(Body(typ, value)))
    else if typ == FormData then
      (req.(tag := FormDataTag), Returned(Body(typ, FormDataValue)))
    else (req, Threw(TypeError("Invalid body type: \"" + KindName(typ) + "\"")))
  }

  /** Why `#validateGetArgs` refuses a call: a reader, stream or form-data
      read after the body was consumed as another kind, any other read after
      it was consumed as one of those three, or a type given together with
      content types. */
  datatype Refusal = ConsumedAsOther(tag: Tag, requested: Kind) | ConsumedExclusively(tag: Tag) | TypeAndContentTypes

  /** The message of the TypeError each refusal throws. A form-data read
      after another kind reports "cannot be returned as a stream", as
      `RequestBody` words it. */
  function RefusalMessage(x: Refusal): string {
    match x
    case ConsumedAsOther(tag, requested) =>
      "Body already consumed as \"" + TagName(tag) + "\" and cannot be returned as "
      + (if requested == Reader then "a reader." else "a stream.")
    case ConsumedExclusively(tag) =>
      if tag == ReaderTag then "Body already consumed as a reader and can only be returned as a reader."
      else if tag == StreamTag then "Body already consumed as a stream and can only be returned as a stream."
      else "Body already consumed as form data and can only be returned as form data."
    case TypeAndContentTypes => "\"type\" and \"contentTypes\" cannot be specified at the same time"
  }

  /** The kinds that, once a body was consumed as them, admit nothing else. */
  predicate Exclusive(tag: Tag) {
    tag == ReaderTag || tag == StreamTag || tag == FormDataTag
  }

  /** The kind an exclusive tag records. */
  function TagKind(tag: Tag): Kind
    requires Exclusive(tag)
  {
    if tag == ReaderTag then Reader else if tag == StreamTag then Stream else FormData
  }

  /** An independent table of which requested kinds a tag admits: an unset
      tag admits anything; an exclusive tag only its own kind; the "bytes"
      and "undefined" tags anything but the exclusive kinds. */
  predicate Admits(tag: Tag, typ: Kind) {
    match tag
    case Unset => true
    case ReaderTag => typ == Reader
    case StreamTag => typ == Stream
    case FormDataTag => typ == FormData
    case BytesTag => typ != Reader && typ != Stream && typ != FormData
    case UndefinedTag => typ != Reader && typ != Stream && typ != FormData
  }

  /** `#validateGetArgs(type, contentTypes)`: its checks in `RequestBody`'s
      order, giving the refusal behind the TypeError it throws, if any. It
      passes exactly when the tag admits the kind and a type is not given
      together with content types. */
  function ValidateGetArgs(tag: Tag, typ: TypeOption, ct: ContentTypes): (r: Option<Refusal>)
    ensures r.None? <==> Admits(tag, typ) && !(typ != Untyped && KeyCount(ct) > 0)
    ensures (typ == Reader || typ == Stream || typ == FormData) && !Admits(tag, typ) ==>
      r == Some(ConsumedAsOther(tag, typ))
    ensures Exclusive(tag) && typ != Reader && typ != Stream && typ != FormData ==>
      r == Some(ConsumedExclusively(tag))
    ensures Admits(tag, typ) && typ != Untyped && KeyCount(ct) > 0 ==> r == Some(TypeAndContentTypes)
  {
    if typ == Reader && tag != Unset && tag != ReaderTag then Some(ConsumedAsOther(tag, typ))
    else if typ == Stream && tag != Unset && tag != StreamTag then Some(ConsumedAsOther(tag, typ))
    else if typ == FormData && tag != Unset && tag != FormDataTag then Some(ConsumedAsOther(tag, typ))
    else if tag == ReaderTag && typ != Reader then Some(ConsumedExclusively(tag))
    else if tag == StreamTag && typ != Stream then Some(ConsumedExclusively(tag))
    else if tag == FormDataTag && typ != FormData then Some(ConsumedExclusively(tag))
    else if typ != Untyped && KeyCount(ct) > 0 then Some(TypeAndContentTypes)
    else None
  }

  /** `get()` after validation, for the reader and stream kinds: both need
      a body, and tag the request by what they return. */
  function ReadDirect(req: Request, typ: Kind): (r: (Request, Outcome))
    requires typ == Reader || typ == Stream
    ensures r.0.hasBody == req.hasBody && r.0.headers == req.headers
    ensures !req.hasBody <==> r.0.tag == UndefinedTag && r.1.Threw?
    ensures req.hasBody ==>
      (r.0.tag == (if typ == Reader then ReaderTag else StreamTag)
       && r.1 == Returned(Body(typ, if typ == Reader then ReaderValue else StreamValue)))
  {
    if typ == Reader then
      if !req.hasBody then
        (req.(tag := UndefinedTag), Threw(TypeError("Body is undefined and cannot be returned as \"reader\".")))
      else (req.(tag := ReaderTag), Returned(Body(Reader, ReaderValue)))
    else
      if !req.hasBody then
        (req.(tag := UndefinedTag), Threw(TypeError("Body is undefined and cannot be returned as \"stream\".")))
      else (req.(tag := StreamTag), Returned(Body(Stream, StreamValue)))
  }

  /** `content-encoding ?? "identity"`. */
  function Encoding(h: Headers): string {
    if h.contentEncoding.Some? then h.contentEncoding.value else "identity"
  }

  /** `get()` for every other kind, once the encoding check passed: the
      undefined body, then resolving the kind when none was asked for,
      then `#parse`. `req` is already tagged "undefined" when bodiless. */
  function ReadBuffered(req: Request, typ: Kind, ct: ContentTypes, limit: Limit,
                        matches: (string, seq<string>) -> bool, parseInt: string -> Option<int>): (r: (Request, Outcome))
    ensures r.0.hasBody == req.hasBody && r.0.headers == req.headers
    ensures req.tag == UndefinedTag && (typ == Untyped || typ == Undefined) ==>
      r == (req, Returned(Body(Undefined, NoValue)))
  {
    if req.tag == UndefinedTag && (typ == Untyped || typ == Undefined) then
      (req, Returned(Body(Undefined, NoValue)))
    else if typ == Untyped then
      var contentType := if req.headers.contentType.Some? then req.headers.contentType.value else "";
      if contentType == "" then
        (req, Threw(AssertionError("The Content-Type header is missing from the request")))
      else Parse(req, ResolveType(contentType, ct, matches), limit, parseInt)
    else Parse(req, typ, limit, parseInt)
  }

  /** `get(options)`: validate, serve reader and stream reads directly,
      tag a bodiless request "undefined", refuse an encoded body on the
      first read, then read the buffered kinds. */
  function Get(req: Request, opts: GetOptions, matches: (string, seq<string>) -> bool,
               parseInt: string -> Option<int>): (r: (Request, Outcome))
    ensures r.0.hasBody == req.hasBody && r.0.headers == req.headers
    ensures ValidateGetArgs(req.tag, opts.typ, opts.contentTypes).Some? ==>
      r == (req, Threw(TypeError(RefusalMessage(ValidateGetArgs(req.tag, opts.typ, opts.contentTypes).value))))
  {
    var limit := if opts.limit.Some? then opts.limit.value else Finite(DefaultLimit);
    var typ := opts.typ;
    var invalid := ValidateGetArgs(req.tag, typ, opts.contentTypes);
    if invalid.Some? then (req, Threw(TypeError(RefusalMessage(invalid.value))))
    else if typ == Reader || typ == Stream then ReadDirect(req, typ)
    else if req.hasBody && req.tag == Unset && Encoding(req.headers) != "identity" then
      (req, Threw(UnsupportedMediaType("Unsupported content-encoding: " + Encoding(req.headers))))
    else
      var req1 := if req.hasBody then req else req.(tag := UndefinedTag);
      ReadBuffered(req1, typ, opts.contentTypes, limit, matches, parseInt)
  }

  /** Reads keep the request's invariant: a reader or stream tag only ever
      lands on a request with a body. */
  lemma GetPreservesValid(req: Request, opts: GetOptions, matches: (string, seq<string>) -> bool,
                          parseInt: string -> Option<int>)
    requires Valid(req)
    ensures Valid(Get(req, opts, matches, parseInt).0)
  {
  }

  /** A read that returns a body was one the tag admits. */
  lemma ReturnedIsAdmitted(req: Request, opts: GetOptions, matches: (string, seq<string>) -> bool,
                           parseInt: string -> Option<int>)
    requires Get(req, opts, matches, parseInt).1.Returned?
    ensures Admits(req.tag, opts.typ)
  {
  }

  /** Once consumed as a reader, a stream or form data, the request keeps
      that tag whatever is asked next, and asking for another kind fails. */
  lemma ExclusiveTagsAbsorb(req: Request, opts: GetOptions, matches: (string, seq<string>) -> bool,
                            parseInt: string -> Option<int>)
    requires Valid(req) && Exclusive(req.tag)
    ensures Get(req, opts, matches, parseInt).0.tag == req.tag
    ensures opts.typ != TagKind(req.tag) ==>
      Get(req, opts, matches, parseInt).0 == req && Get(req, opts, matches, parseInt).1.Threw?
  {
  }

  /** Reader, stream and form-data reads are refused after the body was
      consumed as anything else, "bytes" and "undefined" included. */
  lemma ExclusiveKindsNeedFreshBody(req: Request, opts: GetOptions, matches: (string, seq<string>) -> bool,
                                    parseInt: string -> Option<int>)
    requires opts.typ == Reader || opts.typ == Stream || opts.typ == FormData
    requires req.tag != Unset && TagName(req.tag) != KindName(opts.typ)
    ensures Get(req, opts, matches, parseInt).1.Threw?
    ensures Get(req, opts, matches, parseInt).0 == req
  {
    assert !Admits(req.tag, opts.typ);
    assert ValidateGetArgs(req.tag, opts.typ, opts.contentTypes) == Some(ConsumedAsOther(req.tag, opts.typ));
  }

  /** A type together with non-empty content types is refused. */
  lemma TypeWithContentTypesFails(req: Request, opts: GetOptions, matches: (string, seq<string>) -> bool,
                                  parseInt: string -> Option<int>)
    requires opts.typ != Untyped && KeyCount(opts.contentTypes) > 0
    ensures Get(req, opts, matches, parseInt).1.Threw?
    ensures Get(req, opts, matches, parseInt).1.error.TypeError?
  {
  }

  /** Without a body, a reader or stream read that passes validation tags
      the request "undefined" and throws. */
  lemma NoBodyReaderOrStream(req: Request, opts: GetOptions, matches: (string, seq<string>) -> bool,
                             parseInt: string -> Option<int>)
    requires !req.hasBody && (opts.typ == Reader || opts.typ == Stream)
    requires ValidateGetArgs(req.tag, opts.typ, opts.contentTypes).None?
    ensures Get(req, opts, matches, parseInt).0.tag == UndefinedTag
    ensures Get(req, opts, matches, parseInt).1.Threw?
  {
  }

  /** Without a body, a read with no type (or type "undefined") that
      passes validation returns the undefined body. */
  lemma NoBodyReadsUndefined(req: Request, opts: GetOptions, matches: (string, seq<string>) -> bool,
                             parseInt: string -> Option<int>)
    requires !req.hasBody && (opts.typ == Untyped || opts.typ == Undefined)
    requires ValidateGetArgs(req.tag, opts.typ, opts.contentTypes).None?
    ensures Get(req, opts, matches, parseInt) == (req.(tag := UndefinedTag), Returned(Body(Undefined, NoValue)))
  {
  }

  /** The first non-reader, non-stream read of a body with a content
      encoding other than identity fails, and the request stays unread. */
  lemma EncodedBodyRefused(req: Request, opts: GetOptions, matches: (string, seq<string>) -> bool,
                           parseInt: string -> Option<int>)
    requires req.hasBody && req.tag == Unset
    requires req.headers.contentEncoding.Some? && req.headers.contentEncoding.value != "identity"
    requires opts.typ != Reader && opts.typ != Stream
    requires ValidateGetArgs(req.tag, opts.typ, opts.contentTypes).None?
    ensures Get(req, opts, matches, parseInt) ==
      (req, Threw(UnsupportedMediaType("Unsupported content-encoding: " + req.headers.contentEncoding.value)))
  {
  }

  /** A first read without a type of a plain body with a Content-Type reads
      it as the kind `resolveType` chooses and tags it accordingly. */
  lemma UntypedReadResolves(req: Request, opts: GetOptions, matches: (string, seq<string>) -> bool,
                            parseInt: string -> Option<int>)
    requires req.hasBody && req.tag == Unset && opts.typ == Untyped
    requires req.headers.contentEncoding.None? || req.headers.contentEncoding.value == "identity"
    requires req.headers.contentType.Some? && req.headers.contentType.value != ""
    ensures var kind := ResolveType(req.headers.contentType.value, opts.contentTypes, matches);
      var r := Get(req, opts, matches, parseInt);
      && r.1.Returned? && r.1.body.typ == kind
      && r.0.tag == (if kind == FormData then FormDataTag else BytesTag)
  {
  }

  /** An untyped read of a body with no Content-Type header, or an empty
      one, fails its assertion: on the first read (once the encoding check
      passed) and on every later read of a body consumed as bytes. */
  lemma UntypedReadNeedsContentType(req: Request, opts: GetOptions, matches: (string, seq<string>) -> bool,
                                    parseInt: string -> Option<int>)
    requires req.hasBody && opts.typ == Untyped && (req.tag == Unset || req.tag == BytesTag)
    requires req.tag == Unset ==> Encoding(req.headers) == "identity"
    requires req.headers.contentType.None? || req.headers.contentType.value == ""
    ensures Get(req, opts, matches, parseInt).1 ==
      Threw(AssertionError("The Content-Type header is missing from the request"))
  {
  }
}
