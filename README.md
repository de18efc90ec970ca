# Pie request dispatch, modelled in Dafny

`Pie` is the single entry point of the Artipie artifact-repository HTTP
server. For every request it decides, from the request line alone, whether
to answer at once with a fixed status or to look the repository up in the
configuration storage and hand the request to the handler ("slice")
resolved from that lookup. Today every lookup resolves to a stub slice that
answers 404.

The model has two modules:

- `PathSplit` (`path_split.dfy`) gives the exact meaning of Java's
  `String.split("/")`, which the dispatcher applies to the URI path: an
  input without `/` comes back whole (so `""` gives `[""]`); otherwise the
  input is cut at every `/`, leading empty pieces are kept and trailing
  empty pieces are dropped (so `"/"` and `"///"` give `[]`, and
  `"/repo/x"` gives `["", "repo", "x"]`). `Split` is built from `RawSplit`
  (cut at every `/`) and `DropTrailingEmpty`, and is related to an
  independent description: `Join` (glue with `/`), `TrimTrailing` (drop
  trailing `/`s) and `OnlySeparators`.
- `Pie` (`pie.dfy`) gives the routing decision `Dispatch`, the stub
  handler (`Resolve`, `Answer`) and `Serve`, which follows one request to
  the status finally delivered and records the configuration keys looked
  up. Reading the request line is an input of type `Option<string>`:
  `None` when the line cannot be parsed, `Some(path)` with the URI path
  otherwise.

The repository key is `path[0]` of the split path, exactly as the code
takes it: for every path that starts with `/` this is the empty string
(`AbsolutePathLooksUpEmptyKey`), so `/mycrepo/path` is looked up under
`""`, not `mycrepo`; and the empty path is looked up under `""` rather
than answered 200 (`EmptyPathLooksUpEmptyKey`).

## Model

| member | source | states |
|---|---|---|
| `PathSplit.RawSplit` | src/main/java/com/artipie/Pie.java:82 | cutting the path at every `/` gives at least one piece, no piece holds `/`, the pieces joined with `/` give the path back, and the first piece is the part of the path before its first `/` |
| `PathSplit.DropTrailingEmpty` | src/main/java/com/artipie/Pie.java:82 | the split keeps a prefix of the pieces that is empty or ends in a non-empty piece, and only empty pieces are removed |
| `PathSplit.TrimTrailing` | src/main/java/com/artipie/Pie.java:82 | the path without trailing `/`s is the prefix that is empty or ends in another character, followed only by `/`s |
| `PathSplit.SplitWithoutSeparator` | src/main/java/com/artipie/Pie.java:82 | a path without `/` splits into the one-element array holding the path |
| `PathSplit.Split` | src/main/java/com/artipie/Pie.java:82-86 | `path.split("/")`: no segment contains `/`; the last segment is non-empty unless the path is empty, which gives `[""]`; the first segment is the part of the path before its first `/`, or the whole path when it holds none; fixed completely by `SplitJoin`, `SplitEmptyIff` and `RawSplitUnique` |
| `PathSplit.SplitJoin` | src/main/java/com/artipie/Pie.java:82 | joining the segments with `/` gives the path with its trailing `/`s removed |
| `PathSplit.SplitEmptyIff` | src/main/java/com/artipie/Pie.java:82-83 | the split has zero segments exactly when the path is non-empty and made only of `/` |
| `PathSplit.RawSplitUnique` | src/main/java/com/artipie/Pie.java:82 | any list of `/`-free segments that joins to the path is the raw split, so the split is determined by its join |
| `PathSplit.SplitAbsolutePathExample` | src/main/java/com/artipie/Pie.java:82 | `"/repo/x"` splits into `["", "repo", "x"]`: the leading empty segment is kept |
| `PathSplit.SplitTrailingExample` | src/main/java/com/artipie/Pie.java:82 | `"a//b//"` splits into `["a", "", "b"]`: inner empty segments stay, trailing ones go |
| `PathSplit.SplitSeparatorsExample` | src/main/java/com/artipie/Pie.java:82-85 | `"/"` and `"///"` split into no segment |
| `Pie.Dispatch` | src/main/java/com/artipie/Pie.java:71-90 | an unparsable request line, and only that, gives 400; a status is answered at once exactly when the line is unparsable, the path is `*`, or the path is non-empty and only `/`s, and it is 400 or 200; otherwise one lookup is made, keyed by the part of the path before its first `/` |
| `Pie.WildcardWouldBeLookedUp` | src/main/java/com/artipie/Pie.java:79-82 | `*` is answered 200 by the test made before splitting, which matters because `*` splits into `["*"]` |
| `Pie.AbsolutePathLooksUpEmptyKey` | src/main/java/com/artipie/Pie.java:82-88 | a path starting with `/` that is not only `/`s is looked up under the empty key |
| `Pie.EmptyPathLooksUpEmptyKey` | src/main/java/com/artipie/Pie.java:82-88 | the empty path is looked up under the empty key |
| `Pie.Resolve` | src/main/java/com/artipie/Pie.java:88 | a completed configuration read resolves to the stub handler whatever value it returned |
| `Pie.Answer` | src/main/java/com/artipie/Pie.java:99-103 | the stub handler answers 404 to any request line and headers |
| `Pie.ResolvedHandlerAnswersNotFound` | src/main/java/com/artipie/Pie.java:88 | whatever the lookup produced, the stub handler is chosen, and it answers 404 to any request line and headers |
| `Pie.Serve` | src/main/java/com/artipie/Pie.java:71-103 | every request gets exactly one status, always 200, 400 or 404; at most one lookup is made, none for the fixed-status answers, and a request with a lookup is answered 404 once the read completes |
| `Pie.ServeIgnoresReadValue` | src/main/java/com/artipie/Pie.java:86-103 | the lookups and final status depend only on the request target, not on the headers, the rest of the line or the value the completed configuration read returned |
| `Pie.Scenarios` | src/main/java/com/artipie/Pie.java:71-103 | `/mycrepo/path` looks up `""` and, once that read completes, ends in 404; `/` and `*` give 200; an unparsable line gives 400 |

## Left out

- Parsing the request line (`RequestLineFrom`) and extracting the URI path (`java.net.URI.getPath`): library code; modelled as the `Option<string>` input of `Dispatch`, with the path assumed non-null.
- The configuration read (`Storage.value`, `Key.From`): an asynchronous call into the storage library; modelled as "a lookup under this key happened" plus the value the read completed with, which the handler choice ignores.
- Serve: covers only a configuration read that completes with a value; a read that fails (whether a key with nothing stored under it reads normally is decided by the storage library, not by this code) skips the handler and leaves the response unsent, which the model does not capture, so the 404 it promises after a lookup holds only for a completed read.
- `AsyncSlice` and `RsAsync`: their point is deferring the handler and the response until futures complete; the sequential model composes the resolved handler's answer directly in `Serve`, and the ordering of callbacks is not captured.
- Headers and the body publisher are passed through untouched; headers appear only as parameters the stub ignores, and the body is not modelled.
- `RsWithStatus` and `Connection`: responses are represented by their integer status only.
