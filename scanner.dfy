/**
 * `AbstractLicenseMojo.execute` without its thread pool: the tables are built, one task per
 * source file is submitted and counted, and exactly as many completions are taken as there
 * were submissions. Completion order is left open: the drain loop may take any pending task
 * next, so the contract holds for every order in which the workers could finish.
 */
module LicenseScan {
  import opened HeaderStyleCatalog
  import opened DocumentClassifier

  /** The mycila tables `buildMapping` and `buildHeaderDefinitions` start from. */
  datatype Builtins = Builtins(
    defaultMapping: map<string, string>,                  // DocumentType.defaultMapping()
    headerTypeNames: set<string>,                         // names of HeaderType.values()
    defaultDefinitions: map<string, HeaderDefinition>,    // HeaderType.defaultDefinitions()
    unknownDefinition: HeaderDefinition)                  // HeaderType.UNKNOWN.getDefinition()

  /** The mojo's configuration fields that the scan reads. */
  datatype Configuration = Configuration(
    useDefaultMappings: bool,
    mapping: map<string, string>,
    headerDefinitions: seq<map<string, HeaderDefinition>>, // each resource, already parsed
    strictCheck: bool)

  /**
   * The plugin's own `DocumentFactory`, as far as it is used here: the two tables and how it
   * turns a file into a `Document` with them (its workings are a parameter).
   */
  datatype DocumentFactory = DocumentFactory(
    extensionMapping: map<string, string>,
    definitions: map<string, HeaderDefinition>,
    create: (map<string, string>, map<string, HeaderDefinition>, File) -> Document)

  function CreateDocument(factory: DocumentFactory, file: File): Document {
    factory.create(factory.extensionMapping, factory.definitions, file)
  }

  /** The events of the task submitted for `file`. */
  function TaskEvents(factory: DocumentFactory, file: File, h: Header, validHeaders: seq<Header>, strictCheck: bool)
    : seq<Event>
  {
    Dispatch(file, CreateDocument(factory, file), h, validHeaders, strictCheck)
  }

  /** The events of a single-threaded run over `files`, in submission order. */
  function SequentialEvents(factory: DocumentFactory, files: seq<File>, h: Header, validHeaders: seq<Header>,
                            strictCheck: bool): seq<Event>
  {
    if files == [] then []
    else TaskEvents(factory, files[0], h, validHeaders, strictCheck)
         + SequentialEvents(factory, files[1..], h, validHeaders, strictCheck)
  }

  lemma {:induction false} SequentialEventsAppend(factory: DocumentFactory, a: seq<File>, b: seq<File>, h: Header,
                                                  validHeaders: seq<Header>, strictCheck: bool)
    ensures SequentialEvents(factory, a + b, h, validHeaders, strictCheck)
            == SequentialEvents(factory, a, h, validHeaders, strictCheck)
               + SequentialEvents(factory, b, h, validHeaders, strictCheck)
  {
    if a == [] {
      assert a + b == b;
    } else {
      assert (a + b)[1..] == a[1..] + b;
      SequentialEventsAppend(factory, a[1..], b, h, validHeaders, strictCheck);
    }
  }

  /** Taking task `j` out of the pending list takes exactly its events out of the rest. */
  lemma RemovePendingTask(factory: DocumentFactory, pending: seq<File>, j: nat, h: Header,
                          validHeaders: seq<Header>, strictCheck: bool)
    requires j < |pending|
    ensures multiset(SequentialEvents(factory, pending, h, validHeaders, strictCheck))
            == multiset(TaskEvents(factory, pending[j], h, validHeaders, strictCheck))
               + multiset(SequentialEvents(factory, pending[..j] + pending[j + 1..], h, validHeaders, strictCheck))
  {
    assert pending == pending[..j] + ([pending[j]] + pending[j + 1..]);
    SequentialEventsAppend(factory, pending[..j], [pending[j]] + pending[j + 1..], h, validHeaders, strictCheck);
    SequentialEventsAppend(factory, [pending[j]], pending[j + 1..], h, validHeaders, strictCheck);
    SequentialEventsAppend(factory, pending[..j], pending[j + 1..], h, validHeaders, strictCheck);
    assert [pending[j]][1..] == [];
  }

  /**
   * The submit and drain loops. Returns the events in the order they happened and the
   * number of completions taken.
   */
  method Scan(source: seq<File>, factory: DocumentFactory, h: Header, validHeaders: seq<Header>, strictCheck: bool)
    returns (fired: seq<Event>, taken: nat)
    ensures multiset(fired) == multiset(SequentialEvents(factory, source, h, validHeaders, strictCheck))
    ensures taken == |source|
  {
    var pending: seq<File> := [];
    var count := 0;
    for n := 0 to |source|
      invariant pending == source[..n] && count == n
    {
      pending := pending + [source[n]];
      count := count + 1;
    }
    assert source[..|source|] == source;

    fired, taken := [], 0;
    while count > 0
      invariant count == |pending| && taken + count == |source|
      invariant multiset(fired) + multiset(SequentialEvents(factory, pending, h, validHeaders, strictCheck))
                == multiset(SequentialEvents(factory, source, h, validHeaders, strictCheck))
    {
      count := count - 1;
      var j :| 0 <= j < |pending|;
      var events, _ := RunTask(pending[j], CreateDocument(factory, pending[j]), h, validHeaders, strictCheck);
      RemovePendingTask(factory, pending, j, h, validHeaders, strictCheck);
      fired := fired + events;
      pending := pending[..j] + pending[j + 1..];
      taken := taken + 1;
    }
  }

  /** Within one task, an event occurs once if that task fires it, and otherwise not at all. */
  lemma TaskEventCount(factory: DocumentFactory, f: File, h: Header, validHeaders: seq<Header>,
                       strictCheck: bool, e: Event)
    ensures multiset(TaskEvents(factory, f, h, validHeaders, strictCheck))[e]
            == if e.file == f && e in TaskEvents(factory, e.file, h, validHeaders, strictCheck) then 1 else 0
  {
    var t := TaskEvents(factory, f, h, validHeaders, strictCheck);
    AtMostOneCallback(f, CreateDocument(factory, f), h, validHeaders, strictCheck);
    if |t| == 1 {
      assert t == [t[0]];
    }
  }

  /**
   * How often event `e` occurs in a single-threaded run: once per submission of its file,
   * when that file's task fires it. With no file submitted twice, no event happens twice.
   */
  lemma {:induction false} EventsPerFile(factory: DocumentFactory, files: seq<File>, h: Header,
                                         validHeaders: seq<Header>, strictCheck: bool, e: Event)
    ensures multiset(SequentialEvents(factory, files, h, validHeaders, strictCheck))[e]
            == if e in TaskEvents(factory, e.file, h, validHeaders, strictCheck) then multiset(files)[e.file] else 0
  {
    if files != [] {
      var f := files[0];
      EventsPerFile(factory, files[1..], h, validHeaders, strictCheck, e);
      TaskEventCount(factory, f, h, validHeaders, strictCheck, e);
      assert files == [f] + files[1..];
      assert multiset(files)[e.file] == (if f == e.file then 1 else 0) + multiset(files[1..])[e.file];
    }
  }

  predicate NoDuplicates(files: seq<File>) {
    forall i, j | 0 <= i < j < |files| :: files[i] != files[j]
  }

  lemma {:induction false} NoDuplicatesCount(files: seq<File>, f: File)
    requires NoDuplicates(files) && f in files
    ensures multiset(files)[f] == 1
  {
    assert files == [files[0]] + files[1..];
    if files[0] == f {
      assert f !in files[1..];
    } else {
      NoDuplicatesCount(files[1..], f);
    }
  }

  /**
   * Exactly once: when no file is submitted twice, every event a file's task fires is
   * delivered exactly once by the scan, whatever the completion order.
   */
  lemma ScanDeliversEachEventOnce(factory: DocumentFactory, source: seq<File>, h: Header,
                                  validHeaders: seq<Header>, strictCheck: bool, fired: seq<Event>, f: File)
    requires multiset(fired) == multiset(SequentialEvents(factory, source, h, validHeaders, strictCheck))
    requires NoDuplicates(source) && f in source
    ensures forall e | e in TaskEvents(factory, f, h, validHeaders, strictCheck) :: multiset(fired)[e] == 1
  {
    forall e | e in TaskEvents(factory, f, h, validHeaders, strictCheck)
      ensures multiset(fired)[e] == 1
    {
      AtMostOneCallback(f, CreateDocument(factory, f), h, validHeaders, strictCheck);
      EventsPerFile(factory, source, h, validHeaders, strictCheck, e);
      NoDuplicatesCount(source, f);
    }
  }

  /** What a successful `execute` produced. */
  datatype ScanReport = ScanReport(factory: DocumentFactory, fired: seq<Event>, taken: nat)

  /**
   * `execute`: build the extension table (which may reject the user mapping before any file
   * is scanned), build the definitions, then scan every source file once.
   */
  method Execute(builtins: Builtins, config: Configuration, h: Header, validHeaders: seq<Header>,
                 create: (map<string, string>, map<string, HeaderDefinition>, File) -> Document,
                 source: seq<File>)
    returns (r: Result<ScanReport, InvalidUserData>)
    ensures r.Failure? <==> HasInvalidEntry(config.mapping, builtins.headerTypeNames)
    ensures r.Failure? ==>
      exists k | k in config.mapping :: ToUpper(config.mapping[k]) !in builtins.headerTypeNames
                                        && r.error == InvalidHeaderType(ToUpper(config.mapping[k]), ToLower(k))
    ensures r.Success? ==>
      var factory := r.value.factory;
      && IsExtensionMapping(config.useDefaultMappings, builtins.defaultMapping, config.mapping,
                            factory.extensionMapping)
      && factory.definitions == Overlay(builtins.defaultDefinitions, config.headerDefinitions)
                                  [builtins.unknownDefinition.kind := builtins.unknownDefinition]
      && factory.create == create
      && multiset(r.value.fired) == multiset(SequentialEvents(factory, source, h, validHeaders, config.strictCheck))
      && r.value.taken == |source|
  {
    var mapping := BuildMapping(config.useDefaultMappings, builtins.defaultMapping, builtins.headerTypeNames,
                                config.mapping);
    if mapping.Failure? {
      return Failure(mapping.error);
    }
    var definitions := BuildHeaderDefinitions(builtins.defaultDefinitions, config.headerDefinitions,
                                              builtins.unknownDefinition);
    var factory := DocumentFactory(mapping.value, definitions, create);
    var fired, taken := Scan(source, factory, h, validHeaders, config.strictCheck);
    return Success(ScanReport(factory, fired, taken));
  }
}
