/**
 * The two configuration tables that `AbstractLicenseMojo` builds before any file
 * is scanned: the file-extension -> header-type-name table (`buildMapping`) and the
 * header-type -> header-definition table (`buildHeaderDefinitions`).
 *
 * The built-in tables of the mycila library (`DocumentType.defaultMapping()`,
 * `HeaderType.values()`, `HeaderType.defaultDefinitions()` and the definition of
 * `HeaderType.UNKNOWN`) are not visible here and are passed in as parameters.
 */
module HeaderStyleCatalog {

  datatype Result<T, E> = Success(value: T) | Failure(error: E)

  /** The `InvalidUserDataException` thrown for a user mapping naming an unknown header type. */
  datatype InvalidUserData = InvalidHeaderType(headerType: string, fileType: string)

  /**
   * Stand-ins for `DocumentType.UNKNOWN.getExtension()` and
   * `DocumentType.UNKNOWN.getDefaultHeaderTypeName()`; the values are assumed.
   */
  const UnknownExtension: string := "unknown"
  const UnknownHeaderTypeName: string := "UNKNOWN"

  /** A comment-delimiter convention, as carried by mycila's `HeaderDefinition`. */
  datatype HeaderDefinition = HeaderDefinition(
    kind: string,
    firstLine: string,
    beforeEachLine: string,
    endLine: string,
    skipLinePattern: string)

  // ---------------------------------------------------------------------------
  // Case conversion (ASCII letters only)
  // ---------------------------------------------------------------------------

  function UpperChar(c: char): char {
    if 'a' <= c <= 'z' then (c as int - 32) as char else c
  }

  function LowerChar(c: char): char {
    if 'A' <= c <= 'Z' then (c as int + 32) as char else c
  }

  /** `String.toUpperCase()` restricted to ASCII letters. */
  function ToUpper(s: string): string {
    if s == [] then [] else [UpperChar(s[0])] + ToUpper(s[1..])
  }

  /** `String.toLowerCase()` restricted to ASCII letters. */
  function ToLower(s: string): string {
    if s == [] then [] else [LowerChar(s[0])] + ToLower(s[1..])
  }

  predicate IsUpperCase(s: string) {
    ToUpper(s) == s
  }

  /** Upper-casing an upper-cased string changes nothing. */
  lemma {:induction false} ToUpperIdempotent(s: string)
    ensures IsUpperCase(ToUpper(s))
  {
    if s != [] {
      ToUpperIdempotent(s[1..]);
      assert ToUpper(s)[1..] == ToUpper(s[1..]);
    }
  }

  // ---------------------------------------------------------------------------
  // buildMapping
  // ---------------------------------------------------------------------------

  /** The extensions the user mapping speaks for, after lower-casing. */
  function LowerKeys(keys: set<string>): set<string> {
    set k | k in keys :: ToLower(k)
  }

  /** The table `buildMapping` starts from. */
  function BaseMapping(useDefaultMappings: bool, defaultMapping: map<string, string>): map<string, string> {
    if useDefaultMappings then defaultMapping else map[]
  }

  /** Some user entry among `keys` whose lower-cased extension is `ext` asks for `style`. */
  ghost predicate ChosenByUser(user: map<string, string>, keys: set<string>, ext: string, style: string) {
    exists k | k in keys && k in user :: ToLower(k) == ext && ToUpper(user[k]) == style
  }

  /** Some user entry names a header type that, upper-cased, is not a valid type name. */
  ghost predicate HasInvalidEntry(user: map<string, string>, validHeaderTypes: set<string>) {
    exists k | k in user :: ToUpper(user[k]) !in validHeaderTypes
  }

  /**
   * What a successful `buildMapping` returns: its domain is the base table's, the user's
   * lower-cased extensions and the sentinel; the sentinel maps to `UNKNOWN`; every other
   * user extension maps to the upper-cased style of one user entry for it; every other
   * base extension keeps its default.
   */
  ghost predicate IsExtensionMapping(useDefaultMappings: bool, defaultMapping: map<string, string>,
                                     user: map<string, string>, m: map<string, string>)
  {
    var base := BaseMapping(useDefaultMappings, defaultMapping);
    && m.Keys == base.Keys + LowerKeys(user.Keys) + {UnknownExtension}
    && m[UnknownExtension] == UnknownHeaderTypeName
    && (forall e | e in LowerKeys(user.Keys) && e != UnknownExtension :: ChosenByUser(user, user.Keys, e, m[e]))
    && (forall e | e in base && e !in LowerKeys(user.Keys) && e != UnknownExtension :: m[e] == base[e])
  }

  lemma LowerKeysAdd(keys: set<string>, k: string)
    ensures LowerKeys(keys + {k}) == LowerKeys(keys) + {ToLower(k)}
  {
  }

  /**
   * The table after the entries in `done` have been stored: the base table with, for each
   * lower-cased extension of `done`, the valid upper-cased style of one entry for it.
   */
  ghost predicate StoredSoFar(base: map<string, string>, user: map<string, string>, validHeaderTypes: set<string>,
                              done: set<string>, m: map<string, string>)
  {
    && done <= user.Keys
    && (forall k | k in done :: ToUpper(user[k]) in validHeaderTypes)
    && m.Keys == base.Keys + LowerKeys(done)
    && (forall e | e in LowerKeys(done) :: ChosenByUser(user, done, e, m[e]))
    && (forall e | e in LowerKeys(done) :: m[e] in validHeaderTypes && IsUpperCase(m[e]))
    && (forall e | e in base && e !in LowerKeys(done) :: m[e] == base[e])
  }

  /** Storing one more valid user entry keeps `StoredSoFar`. */
  lemma StoreEntry(base: map<string, string>, user: map<string, string>, validHeaderTypes: set<string>,
                   done: set<string>, m: map<string, string>, k: string)
    requires StoredSoFar(base, user, validHeaderTypes, done, m)
    requires k in user && ToUpper(user[k]) in validHeaderTypes
    ensures StoredSoFar(base, user, validHeaderTypes, done + {k}, m[ToLower(k) := ToUpper(user[k])])
  {
    var ext, style := ToLower(k), ToUpper(user[k]);
    var done', m' := done + {k}, m[ext := style];
    ToUpperIdempotent(user[k]);
    LowerKeysAdd(done, k);
    assert LowerKeys(done') == LowerKeys(done) + {ext};
    assert m'.Keys == base.Keys + LowerKeys(done');
    forall e | e in LowerKeys(done')
      ensures ChosenByUser(user, done', e, m'[e])
      ensures m'[e] in validHeaderTypes && IsUpperCase(m'[e])
    {
      if e == ext {
        assert k in done' && ToLower(k) == e && ToUpper(user[k]) == m'[e];
      } else {
        assert e in LowerKeys(done);
        var k0 :| k0 in done && k0 in user && ToLower(k0) == e && ToUpper(user[k0]) == m[e];
        assert k0 in done' && m'[e] == m[e];
      }
    }
    forall e | e in base && e !in LowerKeys(done')
      ensures m'[e] == base[e]
    {
      assert e != ext && e !in LowerKeys(done);
    }
  }

  /** Once every entry is stored, forcing the sentinel in gives the extension table. */
  lemma StoredAllIsMapping(useDefaultMappings: bool, defaultMapping: map<string, string>,
                           user: map<string, string>, validHeaderTypes: set<string>, m: map<string, string>)
    requires StoredSoFar(BaseMapping(useDefaultMappings, defaultMapping), user, validHeaderTypes, user.Keys, m)
    ensures IsExtensionMapping(useDefaultMappings, defaultMapping, user, m[UnknownExtension := UnknownHeaderTypeName])
  {
  }

  /**
   * `buildMapping`. The user entries are visited in an unspecified order, as the caller's
   * map does not fix one; the first invalid one visited aborts the build.
   */
  method BuildMapping(useDefaultMappings: bool, defaultMapping: map<string, string>,
                      validHeaderTypes: set<string>, user: map<string, string>)
    returns (r: Result<map<string, string>, InvalidUserData>)
    ensures r.Failure? <==> HasInvalidEntry(user, validHeaderTypes)
    ensures r.Failure? ==>
      exists k | k in user :: ToUpper(user[k]) !in validHeaderTypes
                              && r.error == InvalidHeaderType(ToUpper(user[k]), ToLower(k))
    ensures r.Success? ==> IsExtensionMapping(useDefaultMappings, defaultMapping, user, r.value)
    ensures r.Success? ==>
      forall e | e in LowerKeys(user.Keys) && e != UnknownExtension ::
        r.value[e] in validHeaderTypes && IsUpperCase(r.value[e])
  {
    var base := BaseMapping(useDefaultMappings, defaultMapping);
    var extensionMapping := base;
    var todo, done := user.Keys, {};
    while todo != {}
      invariant todo + done == user.Keys && todo !! done
      invariant StoredSoFar(base, user, validHeaderTypes, done, extensionMapping)
      decreases todo
    {
      var k :| k in todo;
      var headerType := ToUpper(user[k]);
      var fileType := ToLower(k);
      if headerType !in validHeaderTypes {
        return Failure(InvalidHeaderType(headerType, fileType));
      }
      StoreEntry(base, user, validHeaderTypes, done, extensionMapping, k);
      extensionMapping := extensionMapping[fileType := headerType];
      todo, done := todo - {k}, done + {k};
    }
    StoredAllIsMapping(useDefaultMappings, defaultMapping, user, validHeaderTypes, extensionMapping);
    extensionMapping := extensionMapping[UnknownExtension := UnknownHeaderTypeName];
    return Success(extensionMapping);
  }

  /**
   * When no two user extensions differ only by case, the iteration order does not matter:
   * the extension table is a function of the inputs.
   */
  lemma ExtensionMappingUnique(useDefaultMappings: bool, defaultMapping: map<string, string>,
                               user: map<string, string>, m1: map<string, string>, m2: map<string, string>)
    requires forall k1, k2 | k1 in user && k2 in user && ToLower(k1) == ToLower(k2) :: k1 == k2
    requires IsExtensionMapping(useDefaultMappings, defaultMapping, user, m1)
    requires IsExtensionMapping(useDefaultMappings, defaultMapping, user, m2)
    ensures m1 == m2
  {
    forall e | e in m1
      ensures m1[e] == m2[e]
    {
      if e != UnknownExtension && e in LowerKeys(user.Keys) {
        var k1 :| k1 in user && ToLower(k1) == e && ToUpper(user[k1]) == m1[e];
        var k2 :| k2 in user && ToLower(k2) == e && ToUpper(user[k2]) == m2[e];
      }
    }
  }

  // ---------------------------------------------------------------------------
  // buildHeaderDefinitions
  // ---------------------------------------------------------------------------

  /** The defaults with each resource's definitions laid over them with `putAll`, in order. */
  function Overlay(defaults: map<string, HeaderDefinition>, resources: seq<map<string, HeaderDefinition>>)
    : map<string, HeaderDefinition>
    decreases |resources|
  {
    if resources == [] then defaults
    else Overlay(defaults, resources[..|resources| - 1]) + resources[|resources| - 1]
  }

  /** The index of the last resource defining `kind`, or -1 when none does. */
  function LastDefining(resources: seq<map<string, HeaderDefinition>>, kind: string): (j: int)
    ensures -1 <= j < |resources|
    ensures j >= 0 ==> kind in resources[j]
    ensures forall i | j < i < |resources| :: kind !in resources[i]
    decreases |resources|
  {
    if resources == [] then -1
    else if kind in resources[|resources| - 1] then |resources| - 1
    else LastDefining(resources[..|resources| - 1], kind)
  }

  /**
   * Lookup in the overlay: a kind is defined iff a default or some resource defines it, and
   * its definition is the last resource's that defines it, else the default.
   */
  lemma {:induction false} OverlayLookup(defaults: map<string, HeaderDefinition>,
                                         resources: seq<map<string, HeaderDefinition>>, kind: string)
    ensures var j := LastDefining(resources, kind);
            && (kind in Overlay(defaults, resources) <==> kind in defaults || j >= 0)
            && (kind in Overlay(defaults, resources) ==>
                  Overlay(defaults, resources)[kind] == if j >= 0 then resources[j][kind] else defaults[kind])
    decreases |resources|
  {
    if resources != [] {
      OverlayLookup(defaults, resources[..|resources| - 1], kind);
    }
  }

  /**
   * `buildHeaderDefinitions`: start from the default definitions, `putAll` each resource in
   * order, then force the `UNKNOWN` definition in under its own type key.
   */
  method BuildHeaderDefinitions(defaults: map<string, HeaderDefinition>,
                                resources: seq<map<string, HeaderDefinition>>,
                                unknownDefinition: HeaderDefinition)
    returns (headers: map<string, HeaderDefinition>)
    ensures headers == Overlay(defaults, resources)[unknownDefinition.kind := unknownDefinition]
    ensures unknownDefinition.kind in headers && headers[unknownDefinition.kind] == unknownDefinition
    ensures forall kind | kind != unknownDefinition.kind ::
              kind in headers <==> kind in defaults || exists i | 0 <= i < |resources| :: kind in resources[i]
    ensures forall kind | kind in headers && kind != unknownDefinition.kind ::
              var j := LastDefining(resources, kind);
              headers[kind] == if j >= 0 then resources[j][kind] else defaults[kind]
  {
    headers := defaults;
    for i := 0 to |resources|
      invariant headers == Overlay(defaults, resources[..i])
    {
      assert resources[..i + 1][..i] == resources[..i];
      headers := headers + resources[i];
    }
    assert resources[..|resources|] == resources;
    headers := headers[unknownDefinition.kind := unknownDefinition];
    forall kind | kind != unknownDefinition.kind
      ensures kind in headers <==> kind in defaults || exists i | 0 <= i < |resources| :: kind in resources[i]
      ensures kind in headers ==>
                var j := LastDefining(resources, kind);
                headers[kind] == if j >= 0 then resources[j][kind] else defaults[kind]
    {
      OverlayLookup(defaults, resources, kind);
    }
  }
}
