/**
 * The per-file decision of `AbstractLicenseMojo.execute`: the body of the task submitted
 * for each source file, which decides which callback (if any) the file gets.
 *
 * The mycila `Document` is external: its three queries (`isNotSupported()`, `is(header)`,
 * `hasHeader(header, strict)`) are taken as given, uninterpreted answers carried by the
 * document value. Calls to the two callbacks and the unknown-extension warning are
 * recorded as `Event`s, and every `hasHeader` call as the header it was asked about.
 */
module DocumentClassifier {

  datatype File = File(path: string)

  /** A parsed license header, identified by the location it was read from. */
  datatype Header = Header(location: string)

  datatype Document = Document(
    notSupported: bool,                // Document.isNotSupported()
    isHeader: Header -> bool,          // Document.is(header)
    hasHeader: (Header, bool) -> bool) // Document.hasHeader(header, strictCheck)

  /** What a task does that can be seen from outside. */
  datatype Event =
    | UnknownExtensionWarning(file: File)
    | OnExistingHeader(file: File, header: Header)
    | OnHeaderNotFound(file: File, header: Header)

  predicate IsCallback(e: Event) {
    e.OnExistingHeader? || e.OnHeaderNotFound?
  }

  /** The position of the first header in `headers` the document carries, or `|headers|`. */
  function FirstMatch(document: Document, headers: seq<Header>, strictCheck: bool): (i: nat)
    ensures i <= |headers|
    ensures forall j | 0 <= j < i :: !document.hasHeader(headers[j], strictCheck)
    ensures i < |headers| ==> document.hasHeader(headers[i], strictCheck)
  {
    if headers == [] then 0
    else if document.hasHeader(headers[0], strictCheck) then 0
    else 1 + FirstMatch(document, headers[1..], strictCheck)
  }

  /** The events the task for `file` produces (specification of `RunTask`). */
  function Dispatch(file: File, document: Document, h: Header, validHeaders: seq<Header>, strictCheck: bool)
    : seq<Event>
  {
    if document.notSupported then [UnknownExtensionWarning(file)]
    else if document.isHeader(h) then []
    else if document.hasHeader(h, strictCheck) then [OnExistingHeader(file, h)]
    else if FirstMatch(document, validHeaders, strictCheck) < |validHeaders| then [OnExistingHeader(file, h)]
    else [OnHeaderNotFound(file, h)]
  }

  /** The headers the task asks `hasHeader` about, in the order it asks (specification of `RunTask`). */
  function Consulted(document: Document, h: Header, validHeaders: seq<Header>, strictCheck: bool): seq<Header> {
    if document.notSupported || document.isHeader(h) then []
    else if document.hasHeader(h, strictCheck) then [h]
    else
      var i := FirstMatch(document, validHeaders, strictCheck);
      [h] + validHeaders[..if i < |validHeaders| then i + 1 else i]
  }

  /** The task body: the fixed decision order, with the flag-and-break loop over the valid headers. */
  method RunTask(file: File, document: Document, h: Header, validHeaders: seq<Header>, strictCheck: bool)
    returns (fired: seq<Event>, consulted: seq<Header>)
    ensures fired == Dispatch(file, document, h, validHeaders, strictCheck)
    ensures consulted == Consulted(document, h, validHeaders, strictCheck)
  {
    fired, consulted := [], [];
    if document.notSupported {
      fired := [UnknownExtensionWarning(file)];
    } else if document.isHeader(h) {
      // the header file itself is skipped
    } else {
      consulted := [h];
      if document.hasHeader(h, strictCheck) {
        fired := [OnExistingHeader(file, h)];
      } else {
        var headerFound := false;
        var i := 0;
        while i < |validHeaders|
          invariant 0 <= i <= |validHeaders|
          invariant !headerFound && fired == []
          invariant consulted == [h] + validHeaders[..i]
          invariant forall j | 0 <= j < i :: !document.hasHeader(validHeaders[j], strictCheck)
        {
          consulted := consulted + [validHeaders[i]];
          headerFound := document.hasHeader(validHeaders[i], strictCheck);
          if headerFound {
            fired := [OnExistingHeader(file, h)];
            assert FirstMatch(document, validHeaders, strictCheck) == i;
            assert validHeaders[..i + 1] == validHeaders[..i] + [validHeaders[i]];
            break;
          }
          i := i + 1;
        }
        if !headerFound {
          fired := [OnHeaderNotFound(file, h)];
        }
      }
    }
  }

  // ---------------------------------------------------------------------------
  // Properties of the decision order
  // ---------------------------------------------------------------------------

  /** An unsupported document only draws a warning: no callback, no header comparison. */
  lemma UnsupportedOnlyWarns(file: File, document: Document, h: Header, validHeaders: seq<Header>, strictCheck: bool)
    requires document.notSupported
    ensures Dispatch(file, document, h, validHeaders, strictCheck) == [UnknownExtensionWarning(file)]
    ensures Consulted(document, h, validHeaders, strictCheck) == []
  {
  }

  /**
   * The header file itself is recognised before any `hasHeader` call, so it is skipped with
   * no event even when it would also match its own header.
   */
  lemma HeaderFileSkipped(file: File, document: Document, h: Header, validHeaders: seq<Header>, strictCheck: bool)
    requires !document.notSupported && document.isHeader(h)
    ensures Dispatch(file, document, h, validHeaders, strictCheck) == []
    ensures Consulted(document, h, validHeaders, strictCheck) == []
  {
  }

  /** A canonical match fires `onExistingHeader(document, h)` and no alternate is consulted. */
  lemma CanonicalMatchShortCircuits(file: File, document: Document, h: Header, validHeaders: seq<Header>,
                                    strictCheck: bool)
    requires !document.notSupported && !document.isHeader(h) && document.hasHeader(h, strictCheck)
    ensures Dispatch(file, document, h, validHeaders, strictCheck) == [OnExistingHeader(file, h)]
    ensures Consulted(document, h, validHeaders, strictCheck) == [h]
  {
  }

  /**
   * The alternates are tried in list order; the first one the document carries fires
   * `onExistingHeader` with the canonical header, and none after it is consulted.
   */
  lemma FirstAlternateWins(file: File, document: Document, h: Header, validHeaders: seq<Header>,
                           strictCheck: bool, i: nat)
    requires !document.notSupported && !document.isHeader(h) && !document.hasHeader(h, strictCheck)
    requires i < |validHeaders| && document.hasHeader(validHeaders[i], strictCheck)
    requires forall j | 0 <= j < i :: !document.hasHeader(validHeaders[j], strictCheck)
    ensures Dispatch(file, document, h, validHeaders, strictCheck) == [OnExistingHeader(file, h)]
    ensures Consulted(document, h, validHeaders, strictCheck) == [h] + validHeaders[..i + 1]
  {
  }

  /**
   * A supported document that is not the header file gets `onHeaderNotFound` exactly when
   * neither the canonical header nor any alternate matches; then every alternate was consulted.
   */
  lemma NotFoundIffNoMatch(file: File, document: Document, h: Header, validHeaders: seq<Header>, strictCheck: bool)
    requires !document.notSupported && !document.isHeader(h)
    ensures Dispatch(file, document, h, validHeaders, strictCheck) == [OnHeaderNotFound(file, h)]
            <==> !document.hasHeader(h, strictCheck)
                 && forall i | 0 <= i < |validHeaders| :: !document.hasHeader(validHeaders[i], strictCheck)
    ensures Dispatch(file, document, h, validHeaders, strictCheck) == [OnHeaderNotFound(file, h)] ==>
              Consulted(document, h, validHeaders, strictCheck) == [h] + validHeaders
  {
  }

  /** With no alternates, a supported non-matching document always goes to `onHeaderNotFound`. */
  lemma NoAlternatesMeansNotFound(file: File, document: Document, h: Header, strictCheck: bool)
    requires !document.notSupported && !document.isHeader(h) && !document.hasHeader(h, strictCheck)
    ensures Dispatch(file, document, h, [], strictCheck) == [OnHeaderNotFound(file, h)]
  {
  }

  /**
   * Every document draws at most one event; a callback always receives the canonical header;
   * and only the header file itself draws nothing at all.
   */
  lemma AtMostOneCallback(file: File, document: Document, h: Header, validHeaders: seq<Header>, strictCheck: bool)
    ensures |Dispatch(file, document, h, validHeaders, strictCheck)| <= 1
    ensures forall e | e in Dispatch(file, document, h, validHeaders, strictCheck) ::
              e.file == file && (IsCallback(e) ==> e.header == h) && (IsCallback(e) <==> !document.notSupported)
    ensures Dispatch(file, document, h, validHeaders, strictCheck) == [] <==>
              !document.notSupported && document.isHeader(h)
  {
  }
}
