/** The routing decision of the artifact-repository entry point (`Pie`):
    a request is answered at once with a fixed status, or the first
    segment of its path is looked up in the configuration storage and the
    handler resolved from that lookup answers it. */
module Pie {
  import opened PathSplit

  datatype Option<T> = None | Some(value: T)

  /** A header line as a name/value pair; the core passes headers on untouched. */
  type Header = (string, string)

  const BadRequest: int := 400
  const Ok: int := 200
  const NotFound: int := 404

  /** The dispatcher's first answer: a status given at once, or a lookup of
      the repository configuration stored under `key`. */
  datatype Outcome = Status(code: int) | Lookup(key: string)

  /** `key` is the part of `path` before its first separator (all of
      `path` when it holds none). */
  predicate FirstSegment(key: string, path: string)
  {
    key <= path && Sep !in key && (|key| < |path| ==> path[|key|] == Sep)
  }

  /** The routing decision. `uri` is the outcome of reading the request
      line: `None` when it is malformed (the parser throws), `Some(path)`
      with the path of its request target otherwise.
      - a malformed line is answered 400;
      - the path `*` is answered 200, before the path is split;
      - a path that splits into no segment at all (non-empty and made only
        of separators) is answered 200;
      - any other path is looked up by its first segment, which for a path
        starting with a separator (or for the empty path) is the empty
        string. */
  function Dispatch(uri: Option<string>): (o: Outcome)
    ensures uri.None? <==> o == Status(BadRequest)
    ensures o.Status? <==>
      uri.None? || uri.value == "*" || (uri.value != "" && OnlySeparators(uri.value))
    ensures o.Status? ==> o.code in {BadRequest, Ok}
    ensures o.Lookup? ==> FirstSegment(o.key, uri.value)
  {
    match uri
    case None => Status(BadRequest)
    case Some(path) =>
      if path == "*" then Status(Ok)
      else
        var segs := Split(path);
        SplitEmptyIff(path);
        if |segs| == 0 then Status(Ok)
        else Lookup(segs[0])
  }

  /** The handlers a lookup can resolve to: only the stub today. */
  datatype Handler = SliceStub

  /** The handler chosen once the configuration read completes with
      `read`. The value is ignored: every completed read resolves to the
      stub. */
  function Resolve<V>(read: V): (h: Handler)
    ensures h == SliceStub
  {
    SliceStub
  }

  /** The status a handler answers a request with: the stub answers 404
      whatever the request line and headers. */
  function Answer(h: Handler, line: string, headers: seq<Header>): (code: int)
    ensures code == NotFound
  {
    match h
    case SliceStub => NotFound
  }

  /** Whatever the lookup produced, the stub is chosen, and it answers 404
      to any request line and headers. */
  lemma ResolvedHandlerAnswersNotFound<V>(a: V, b: V,
                                          line: string, headers: seq<Header>)
    ensures Resolve(a) == Resolve(b) == SliceStub
    ensures Answer(Resolve(a), line, headers) == NotFound
  {
  }

  /** One request served to completion: the keys looked up in the
      configuration storage, in order, and the status finally delivered. */
  datatype Exchange = Exchange(lookups: seq<string>, status: int)

  /** `Pie.response` followed through the deferred handler to the status
      that is finally sent, for a configuration read that completes with
      the value `read` (a read that fails never reaches the handler and is
      not modelled). */
  function Serve<V>(uri: Option<string>, line: string, headers: seq<Header>,
                    read: V): (e: Exchange)
    ensures |e.lookups| <= 1
    ensures e.status in {Ok, BadRequest, NotFound}
    ensures e.lookups == [] <==> Dispatch(uri).Status?
    ensures e.lookups != [] ==> e.lookups == [Dispatch(uri).key] && e.status == NotFound
    ensures e.lookups == [] ==> e.status == Dispatch(uri).code
    ensures uri.None? ==> e == Exchange([], BadRequest)
  {
    match Dispatch(uri)
    case Status(code) => Exchange([], code)
    case Lookup(key) =>
      Exchange([key], Answer(Resolve(read), line, headers))
  }

  /** The outcome depends only on the request target, never on the request
      line's other parts, the headers or the value the completed read
      returned. */
  lemma ServeIgnoresReadValue<V>(uri: Option<string>, line1: string, line2: string,
                                 h1: seq<Header>, h2: seq<Header>, read1: V, read2: V)
    ensures Serve(uri, line1, h1, read1) == Serve(uri, line2, h2, read2)
  {
  }

  /** A request with an absolute path that is not only separators looks up
      the empty key, not the repository name that follows the first `/`. */
  lemma AbsolutePathLooksUpEmptyKey(path: string)
    requires path != "" && path[0] == Sep && !OnlySeparators(path)
    ensures Dispatch(Some(path)) == Lookup("")
  {
  }

  /** The empty path is not answered 200: it is looked up under the empty key. */
  lemma EmptyPathLooksUpEmptyKey()
    ensures Dispatch(Some("")) == Lookup("")
  {
  }

  /** Without the wildcard test before splitting, `*` would be looked up as
      a repository of that name. */
  lemma WildcardWouldBeLookedUp()
    ensures Split("*") == ["*"]
    ensures Dispatch(Some("*")) == Status(Ok)
  {
  }

  /** Requests whose path is `/mycrepo/path`, `/`, `*` or malformed; the
      configuration read, where one is made, completes with `read`. */
  lemma Scenarios<V>(read: V)
    ensures Serve(Some("/mycrepo/path"), "GET /mycrepo/path HTTP/1.1", [], read)
            == Exchange([""], NotFound)
    ensures Serve(Some("/"), "GET / HTTP/1.1", [], read) == Exchange([], Ok)
    ensures Serve(Some("*"), "OPTIONS * HTTP/1.1", [], read) == Exchange([], Ok)
    ensures Serve(None, "not a valid request line", [], read) == Exchange([], BadRequest)
  {
    var path := "/mycrepo/path";
    assert path[1] != Sep;
    AbsolutePathLooksUpEmptyKey(path);
    assert "/"[0] == Sep;
  }
}
