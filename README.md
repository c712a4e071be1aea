# gister, modelled in Dafny

gister is a command-line client that uploads files, or standard input, as a
gist: it builds a name -> content map from its arguments, picks a
description and a visibility, resolves a `username:token` credential from
`GISTER_GITHUB_TOKEN` or `~/.gist`, POSTs the request to `gists` or
`gists/<id>` and inspects the decoded JSON reply.

This project models the decision logic of `gister.go` with the I/O replaced
by inputs:

- **Collector** — `getGist`: a method `GetGist` running the source's loop over
  the arguments on a `Gist` object whose `files` map it updates in place,
  proved against the function `Collect` (the first `n` arguments, left to
  right). The outcome of each read, and the name generated for each `-`,
  are given per argument (`None` for a failure).
- **Credentials** — `loadToken` (`LoadToken`), the split-on-`:` check of
  `main` (`ParseToken`) and the credential step (`Authenticate`). The
  environment value and the dotfile's content are inputs.
- **Transport** — the endpoint path (`EndpointPath`), the classification of
  the decoded response (`Classify`), and the nested loops over `errors`
  (`EmitDiagnostics`, proved against `Diagnostics`). Go's map iteration
  order is unspecified, so the order in which each `errors` map is visited
  is an input (`visit`), required only to list each key once.
- **Program** — `main` as the method `Run`, which runs the same steps on the
  object `GetGist` returns and is proved equal to the function `Invoke`.
- **Text** — the library behaviour the client relies on: `strings.Index`,
  `Split`, `Join`, `TrimSpace` (with Go's `unicode.IsSpace` set),
  `filepath.Base` for Unix, and `%d`. `Count`, the number of times a
  character occurs, is not called by the client; the properties of the
  split on `:` are stated with it.

`filepath.Base` is modelled as Go defines it on Unix rather than as "the
text after the last `/`": trailing slashes are removed first, the empty path
gives `.` and a path of slashes only gives `/`. So a path argument's key
holds a `/` exactly when the path is all slashes (`PathKeyHasNoSlash`).

Where the code and its documentation disagree, the model follows the code:

- On success `main` prints nothing; it only checks that `html_url` is
  present (gister.go:196), although its comment (gister.go:118) says the URL
  is printed. `Report.Posted` carries no output.
- On an API failure `main` logs the error lines and the message and returns
  normally, so the exit status is not the non-zero one the documentation
  describes.
- When the reply has neither `html_url` nor `message`, the type assertion at
  gister.go:204 panics after the error lines are logged: `Report.Crashed`.
- The default description is built in `getGist` from `flag.Args()`
  (gister.go:73), not from its `names` parameter; `main` passes `flag.Args()`
  as `names` (gister.go:127), so the model uses one list for both.

## Model

| member | source | states |
|---|---|---|
| Collector.Gist.constructor | gister.go:72-76 | a new request has the given description, is private and has no files |
| Collector.Entry | gister.go:80-99 | one argument fails exactly when its read fails or, for `-`, name generation fails; the error names the argument (`-` for standard input) and says which step failed; otherwise the entry is (generated name or base name, content read) |
| Collector.Collect | gister.go:78-100 | the loop of getGist after its first `n` arguments, left to right; its properties are stated by the `Collect*` lemmas |
| Collector.CollectErrPersists | gister.go:83-98 | once an argument fails, getGist returns that error whatever follows (early return) |
| Collector.CollectFailure | gister.go:83-98 | getGist fails if and only if some argument fails; the error is that of the first failing argument and names it |
| Collector.CollectKeys | gister.go:78-100 | the keys of the files map are exactly the arguments' entry names, so the map has as many entries as there are distinct names |
| Collector.CollectLastWins | gister.go:90-99 | each key holds the content of the last argument with that name; earlier duplicates are overwritten |
| Collector.PathKeyHasNoSlash | gister.go:99 | the key of a path argument holds a `/` if and only if the path is non-empty and all slashes |
| Collector.StdinEntryKept | gister.go:80-91 | a `-` whose generated name no later argument reuses is in the map under that name with the standard-input content |
| Collector.DescriptionListsArguments | gister.go:73 | the default description holds the arguments, `-` included, joined with ", ", and splitting it on ", " gives them back when none holds a ',' |
| Collector.GetGist | gister.go:69-103 | on success a fresh, private request whose description is the joined arguments and whose files are `Collect` of all arguments; on failure no request and the error of `Collect` |
| Credentials.DotfilePath | gister.go:61 | `filepath.Join(HOME, ".gist")` for a home directory that needs no cleaning; named by `LoadToken`'s error |
| Credentials.LoadToken | gister.go:54-67 | loading fails exactly when the environment value is empty and the dotfile cannot be read, and then names the dotfile's path |
| Credentials.EnvironmentWins | gister.go:56-58 | a non-empty environment value is the token verbatim, and the dotfile and HOME make no difference |
| Credentials.DotfileTrimmed | gister.go:61-66 | otherwise the token is the piece of the dotfile's content between its leading and trailing white space, which begins and ends with non-space |
| Credentials.ParseToken | gister.go:177-181 | the split on ':' and the two-word check; stated by `ParseTokenAccepts`, `ParseTokenParts` and `ParseTokenRoundTrip` |
| Credentials.ParseTokenAccepts | gister.go:177-180 | a token is accepted if and only if it holds exactly one ':' |
| Credentials.ParseTokenParts | gister.go:177-181 | an accepted token is username ':' secret, neither part holding a ':' (either may be empty) |
| Credentials.ParseTokenRoundTrip | gister.go:177-181 | "u:s" with no ':' in u or s parses to the credential (u, s) |
| Credentials.Authenticate | gister.go:172-182 | anonymous mode yields no credential; otherwise the step succeeds exactly when the token loads and holds exactly one ':', the credential attached is that token's parse, and a failure is the load's error or, for a loaded token, `Malformed` |
| Credentials.AcceptedTokenExample | gister.go:177-181 | "alice:tok123" gives the credential (alice, tok123) |
| Credentials.RefusedTokenExamples | gister.go:177-179 | "alice" and "a:b:c" are refused as malformed |
| Transport.EndpointPath | gister.go:155-158 | "gists", or "gists/" and the update id; stated by `EndpointPathRoundTrip` |
| Transport.EndpointPathRoundTrip | gister.go:155-158 | the path starts with "gists", is exactly "gists" when no update id is given, and gives back the update id it was built from |
| Transport.EntryDiagnostics | gister.go:199-201 | the inner loop's lines for one error map; stated by `EntryDiagnosticsAt` and `EntryDiagnosticsMembers` |
| Transport.Diagnostics | gister.go:197-203 | the nested loops' lines for the first `n` maps; stated by `DiagnosticsComplete` and `DiagnosticsOrdered` |
| Transport.EntryDiagnosticsAt | gister.go:199-201 | the lines for one error map are its keys in visiting order, each with that map's index and the key's value |
| Transport.EntryDiagnosticsMembers | gister.go:199-201 | the lines for one error map are exactly its (key, value) pairs, each with that map's index |
| Transport.DiagnosticsComplete | gister.go:197-203 | a line is logged if and only if it carries the index of an error map, a key of that map and the key's value |
| Transport.DiagnosticsOrdered | gister.go:197-203 | the lines come map by map in index order and no key of a map twice, so no line repeats |
| Transport.EmitDiagnostics | gister.go:197-203 | the nested loops produce exactly `Diagnostics` of all the error maps |
| Transport.Classify | gister.go:196-205 | success exactly when `html_url` is present; a failure report with the message exactly when `html_url` is absent and `message` present; on failure the error lines are `Diagnostics` of all the `errors` maps, none without `errors` |
| Transport.Render | gister.go:200 | a line as `fmt.Sprintf("%d %s: %s\n", ...)` writes it; stated by `RenderIndex` |
| Transport.RenderIndex | gister.go:200 | in a rendered line the text before the first space is the decimal numeral of the map's index |
| Transport.ResponseExamples | gister.go:196-205 | a reply with `html_url` is a success; one with only `message` is a failure carrying that message and no error lines |
| Program.Invoke | gister.go:119-206 | the outcome of main stage by stage: no arguments, collection, the -d/-p overrides, building the request, the credential step, the reply; its properties are in the `Program` lemmas below |
| Program.Run | gister.go:119-206 | the run of main ends exactly as `Invoke` says |
| Program.RequestFollowsFlags | gister.go:139-142 | the request sent has the -d description when non-empty, else the joined arguments; its visibility is -p whatever getGist set; its files are those collected |
| Program.CollectedGoesOn | gister.go:128-135 | once the files are collected the run stops neither for lack of input nor in getGist |
| Program.BuildFailureFirst | gister.go:144-167 | a request that cannot be built (marshalling, `url.Parse` of the path, `http.NewRequest`) ends the run before the credential step, whatever -a and the environment say |
| Program.CompletedExactly | gister.go:127-194 | a request is sent and its reply classified exactly when there are arguments, all are collected, the request is built, the credential is usable (or -a) and the reply arrives |
| Program.AnonymousConsultsNothing | gister.go:172-182 | with -a the outcome does not depend on the environment or the dotfile, and no credential is attached |
| Program.CollectTwoFiles | gister.go:78-100 | "a.txt" and "b.txt" are stored under their own names |
| Program.JoinTwoNames | gister.go:73 | the default description of "a.txt", "b.txt" is "a.txt, b.txt" |
| Program.TwoFilesExample | gister.go:127-142 | with no flags and two files the request is private, described "a.txt, b.txt" and holds both files |
| Program.AnonymousStdinExample | gister.go:80-91 | with -a and "hello" on standard input the run completes without a credential and stores "hello" under the generated name |
| Text.Index | gister.go:177 | the result is the first position where the separator occurs, or -1 when it occurs nowhere |
| Text.Split | gister.go:177 | `strings.Split` on a non-empty separator; stated by `SplitJoin`, `SplitCount` and `SplitTwo` |
| Text.Join | gister.go:73 | `strings.Join`; stated by `SplitJoin` and `JoinTwoNames` |
| Text.SplitJoin | gister.go:73 | splitting a join gives the parts back when none holds the separator's first character |
| Text.SplitCount | gister.go:177-178 | splitting on one character gives one more piece than it has occurrences |
| Text.SplitTwo | gister.go:177-181 | a two-piece split on `c` is first piece, `c`, second piece, with no `c` in either |
| Text.TrimSpace | gister.go:66 | `strings.TrimSpace`; stated by `TrimSpaceSpec` |
| Text.TrimSpaceSpec | gister.go:66 | the result is the piece of the input between its leading and trailing white space and neither begins nor ends with white space |
| Text.StripTrailingSlashesSpec | gister.go:99 | the first step of the base name keeps a prefix of the path that does not end in `/` and removes only slashes |
| Text.AfterLastSlashSpec | gister.go:99 | the second step keeps the suffix after the last `/`, which holds no `/` |
| Text.Base | gister.go:99 | `filepath.Base` on Unix; stated by `StripTrailingSlashesSpec`, `AfterLastSlashSpec`, `BaseSlash` and `BaseOfPlainName` |
| Text.BaseSlash | gister.go:99 | a base name is never empty and holds a `/` exactly when the path is all slashes |
| Text.BaseOfPlainName | gister.go:99 | a non-empty path with no `/` is its own base name |
| Text.Decimal | gister.go:200 | `%d` prints digits only, with a leading zero only for zero |
| Text.DecimalRoundTrip | gister.go:200 | reading back the printed numeral gives the number |

## Left out

- Reading files, standard input and `~/.gist`, and `os.Getenv`: their outcomes are inputs. Several `-` arguments each get their own given content; the real second read of standard input returns what is left of it.
- UUID v4 generation (gister.go:86): the generated names are inputs, so their format and their uniqueness are not modelled.
- Flag parsing, `usage` and its exit status, logging and the process exit statuses (gister.go:106-130): the flags are given as a value, and `NoInputs` stands for the fatal exit on no arguments.
- JSON encoding of the request, including `omitempty` on the description (gister.go:144), and JSON decoding of the reply (gister.go:192): the request is the `GistRequest` value and the reply the `Response` value.
- Building the HTTP request (`json.Marshal`, both `url.Parse` calls, `ResolveReference`, `http.NewRequest`, gister.go:144-167): whether it succeeds is the input `built`, checked before the credential step as in the source, and `BuildFailed` stands for any of these failing. Which update ids `url.Parse` refuses is not modelled.
- Sending the request and decoding the reply, the headers and Basic-auth encoding (gister.go:168-194): `TransportFailed` stands for `client.Do` or the decoding failing, and the `url` field logged with the message is not modelled.
- The type assertions on `errors` (gister.go:198-199) and on a present but non-string `message` (gister.go:204), which panic on ill-shaped JSON: the `Response` datatype holds only the well-shaped case, and every detail is a string as `%s` prints it.
- Credentials.DotfilePath: `filepath.Join` also cleans the path (`..`, repeated slashes); the model only joins with one `/`.
- Text.Base: Windows volume names and separators are not modelled (Unix only).
- Text.Split: the empty separator is not modelled; the source splits only on ":".
- Strings are sequences of Unicode characters: the conversion of file bytes to a Go string, and invalid UTF-8, are not modelled.
