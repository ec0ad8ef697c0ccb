# Self Service client: verified model

`selfservice.py` is a command-line client for the Univention App Center Self Service.
Its subcommands query, copy, remove and upload app versions over an HTTP API, which it
reaches by running `curl`. This project models the logic inside that client in Dafny and
proves what the logic promises. The modules are:

- `AppIdentifier` (`app_identifier.dfy`): the identifier grammar
  `[UCS_VERSION[@SERVER]/]APP_ID[=APP_VERSION]`, its parser, and round trips against a
  formatter.
- `ActionNames` (`action_names.dfy`): `underscore` and `get_action_name`, which turn an
  action class name such as `NewVersion` into the subcommand `new-version`.
- `RangeFilter` (`range_filter.dfy`): the logging filter for a level interval, and the
  two filters that route messages to standard output and standard error.
- `Selfservice` (`selfservice.dfy`), for `SelfserviceAction`:
  - reading a response (`_get_result`) and the API-level check at login;
  - the command line handed to `curl`: a loop over the keyword arguments, specified by
    functions on the argument sequence.
- `AppVersions` (`app_versions.dfy`): how an identifier selects one version record
  among the apps the server lists. It filters by app id, then by UCS version (default
  `4.1`). Then it takes the first exact version match, or the greatest version under
  `LooseVersion` ordering.
- `NewVersion` (`new_version.dfy`): the target of the `copy` command, including the
  rule that bumps a trailing ` ucs-N` counter of the version string.
- `Upload` (`upload.dfy`): the greedy split of the files to upload into batches, each
  within 250 MiB or a single file that is bigger on its own.
- `ExitStatus` (`exit_status.dfy`): the exit status derived from an action's result.
- `Common` (`common.dfy`): `Option`, `Outcome` (`Ok` or `Abort`, for the client's
  `Abort` exception), a `Json` datatype for decoded responses and action results, and
  `str.split(sep, 1)`.

Modelling notes:

- `LooseVersion` comparison is a parameter `le`, required to be a total preorder.
- The regular expression `(.*) ucs-(\d+)$` is modelled with Python's semantics:
  - `$` also matches before one final newline;
  - `.` does not match a newline, so only the last line's text ends up in the first group.

## Model

| member | source | states |
|---|---|---|
| AppIdentifier.ParseAppIdString | selfservice.py:393-413 | None gives four Nones. Otherwise there is always an app id, free of `=`. A version exists exactly when the input has a `=`. The UCS version is never empty. UCS version and server contain no `/` or `=`. |
| AppIdentifier.SplitTail | selfservice.py:397-400 | `split('=', 1)` with fallback `(s, None)`. The head has no separator. The tail exists iff the separator occurs. The input is head, separator, tail, so the version keeps later `=`. |
| AppIdentifier.SplitHead | selfservice.py:401-404 | `split('/', 1)` with fallback `(None, s)`. The head is None iff the separator is absent, and then the tail is the whole input. Otherwise the input is head, separator, tail. |
| AppIdentifier.SplitUcsPart | selfservice.py:405-412 | An empty UCS part, or one that splits to an empty UCS version, yields no UCS version. |
| AppIdentifier.ParseFormat | selfservice.py:393-413 | Parsing the formatted text gives back every well-formed identifier, including `ucs@srv/id=ver`. |
| AppIdentifier.FormatParse | selfservice.py:393-413 | Outside the lossy corner (an empty UCS part, or one starting with `@`), parsing yields a well-formed identifier that formats back to the exact input. |
| AppIdentifier.EmptyUcsVersion | selfservice.py:405-412 | An empty UCS version becomes None. A server given with it is kept; without one, the server is None. |
| ActionNames.SplitCamel | selfservice.py:100 | The substitution never shortens the text and keeps its first character. |
| ActionNames.SplitCamelPointwise | selfservice.py:100 | The substitution equals the character-by-character rewrite that puts exactly one `_` after each lower-case letter followed by an upper-case one, and changes nothing else. |
| ActionNames.SplitCamelSpec | selfservice.py:100 | The substitution only inserts `_`: the other characters stay, in order. It leaves no lower-case letter directly before an upper-case one. |
| ActionNames.Underscore | selfservice.py:99-101 | None exactly for None or the empty string. Otherwise the result is at least as long as the input and contains no upper-case ASCII letter. |
| ActionNames.ActionName | selfservice.py:129-130 | The subcommand name contains no `_` and no upper-case ASCII letter, and is no shorter than the class name. |
| ActionNames.ActionNameOfWords | selfservice.py:129-130 | A class name made of capitalised words yields those words in lower case, joined by `-`. |
| ActionNames.NewVersionName | selfservice.py:129-130 | The class `NewVersion` gives the subcommand `new-version`. |
| ActionNames.RemoveVersionName | selfservice.py:129-130 | The class `RemoveVersion` gives the subcommand `remove-version`. |
| RangeFilter.Filter.Accepts | selfservice.py:66-71 | A level passes iff it is at least the lower bound and at most the upper bound, inclusive. A missing bound does not restrict. |
| RangeFilter.StreamRouting | selfservice.py:84-93 | INFO goes to standard output only. WARN and above go to standard error only. DEBUG goes to neither. |
| Selfservice.GetResult | selfservice.py:331-337 | Ok iff `status` is 200 and `result` is present, and then the value is `result`. Otherwise Abort. |
| Selfservice.CheckApiLevel | selfservice.py:339-345 | Login succeeds iff the `api` response is a valid result equal to API level 5. |
| Selfservice.Uri | selfservice.py:348-351 | The URI is the server, with `https://` in front when it does not start with `http`, then `/univention/` and the path. So it always starts with `http`, and something is put in front exactly when the server lacked `http`. |
| Selfservice.FieldsMembership | selfservice.py:353-363 | A `(key, val)` field is sent iff some keyword argument with that key is not None and has `val` among its values. |
| Selfservice.FieldArgsShape | selfservice.py:353-363 | Each field yields exactly the flag followed by `key=val`, at positions 2i and 2i+1, in field order. |
| Selfservice.FieldArgsFirst | selfservice.py:359-362 | When there are fields, the arguments start with the flag. |
| Selfservice.FieldArgsAppend | selfservice.py:353-363 | The arguments for two runs of fields are those of the first run followed by those of the second. |
| Selfservice.RequestArgs | selfservice.py:352-368 | Request arguments are never empty. They are exactly `-X POST -H 'Content-Length: 0'` iff there are no fields. Otherwise they are the fields' flag/`key=val` pairs with `-d` for commands and `-F` for uploads. |
| Selfservice.CurlArgv | selfservice.py:370 | The argv starts with `curl --basic --user user:password`, with None shown as `None`. It ends with the URI, and the request arguments sit between the fixed headers and the URI. |
| Selfservice.Curl | selfservice.py:347-370 | The loop over the keyword arguments, then the empty-POST fallback and the fixed options, build exactly `CurlArgv`. |
| Selfservice.AppendValues | selfservice.py:358-363 | The inner loop appends, for each value of one keyword argument, the flag and `key=val`, after what was already there. |
| Selfservice.CurlStep | selfservice.py:353-363 | One more keyword argument appends the arguments for its fields; a None value appends nothing. |
| AppVersions.GetUcsVersion | selfservice.py:433-435 | The requested UCS version if non-empty, else `4.1`. Never empty. |
| AppVersions.AllAppVersionsMembership | selfservice.py:451-458 | A record is collected iff it is a version of some listed app whose id equals the requested id. |
| AppVersions.FindAllAppVersions | selfservice.py:451-458 | The extending loop yields the versions of the matching apps, in list order. |
| AppVersions.FilterUcs | selfservice.py:460-463 | Keeps exactly the records of the requested UCS version, and never adds any. |
| AppVersions.FilterUcsAppend | selfservice.py:463 | The filter keeps order: filtering two runs of records gives the filtered first run followed by the filtered second. |
| AppVersions.FilterUcsSingle | selfservice.py:463 | A single record is kept exactly when its UCS version is the requested one. |
| AppVersions.MaxVersion | selfservice.py:448 | The record picked is a candidate whose version is greatest under the ordering. |
| AppVersions.FindApp | selfservice.py:437-449 | The result is always a candidate. With a version requested: Ok iff some candidate has exactly that version, and the result is the first such. Without one: Ok iff there is a candidate, and the result is the unique greatest. Abort otherwise. |
| AppVersions.MaxVersionUnique | selfservice.py:447-448 | When no two candidates tie, the greatest candidate is the only one whose version it does not exceed. |
| NewVersion.DigitsValueOfNatToString | selfservice.py:544 | `int` reads back the counter that `%d` writes. |
| NewVersion.MatchUcsSuffix | selfservice.py:541 | A match has a newline-free first group and a non-empty digit group. Together with ` ucs-` they end the anchored version. |
| NewVersion.MatchOfSuffixed | selfservice.py:541-543 | `plain ucs-DIGITS` matches with groups `plain` and `DIGITS`. This holds also after earlier lines (which are dropped) and before one final newline. |
| NewVersion.NextAppVersion | selfservice.py:541-546 | The bumped version is the version's base (without its ` ucs-N` counter), then ` ucs-`, then the old counter plus one in decimal; a version without a counter counts as 0. |
| NewVersion.CounterOfSuffixed | selfservice.py:541-543 | A one-line version `plain ucs-DIGITS` carries the counter `DIGITS` on the base `plain`. |
| NewVersion.NextAppVersionCounter | selfservice.py:541-546 | Bumping a one-line version raises its ` ucs-N` counter (0 when absent) by one. The rest of the version is kept. |
| NewVersion.NextAppVersionDiffers | selfservice.py:541-546 | The bumped version always differs from the old one. |
| NewVersion.CopyTargetFor | selfservice.py:537-546 | The new UCS version is the requested one if non-empty, else the app's. A requested app version is always passed through. So is the given (possibly None) version when the UCS version changes. Within the same UCS version and without a requested version, the app's version is bumped. |
| NewVersion.CopyTargetIsNew | selfservice.py:537-547 | Unless the app's own version is requested explicitly, the copy targets a (UCS version, app version) pair different from the app's. |
| Upload.UploadMain | selfservice.py:584-606 | Returns False, uploading nothing, iff the first existing file exceeds 250 MiB. Otherwise returns None, and the batches hold exactly the existing files in order. No batch is empty. Each batch is within the limit or a single file. Each batch was closed only because the next file would have overflowed it. |
| Upload.WellBatchedIsGreedy | selfservice.py:584-606 | Checking the batches one at a time, as the loop does, is the same as the greedy property of the whole split, in both directions. |
| Upload.AddToBatch | selfservice.py:593-603 | A file that fits joins the batch being collected; the loop invariant is kept. |
| Upload.StartBatch | selfservice.py:592-603 | A file that does not fit closes the batch (which is uploaded) and starts the next one; the loop invariant is kept. |
| Upload.FirstTooBig | selfservice.py:593-596 | A file that overflows an empty batch is the first existing file, and it exceeds the limit. |
| Upload.AddFile | selfservice.py:593-603 | Adding a file to the collected batch keeps the batches greedy and appends the file to their concatenation. |
| ExitStatus.ExitCode | selfservice.py:702-712 | The status is 0 iff the action returned True, 0, or a non-integer. Abort gives 10, False gives 1, and another integer gives itself. |
| ExitStatus.FailureStatus | selfservice.py:702-712 | For results that are not integers, the status signals failure exactly when the action aborted or returned False. |

## Left out

- Running `curl`, decoding its output as JSON, and logging the command: process I/O. The model ends at the argv.
- Responses are taken as already decoded:
  - a response is a `map<string, Json>`;
  - the `query` answer is a sequence of `AppEntry` records holding only the keys the client reads.

  A non-dictionary response, which raises TypeError, is not modelled.
- Floating-point JSON numbers are not modelled. `Json` has integers only.
- The text of `Abort` messages is not modelled: the `%r` rendering of Python values is outside the model.
- Credentials are not modelled: reading the user file, the password file and interactive prompts, and caching them in `_username`/`_password`. `Curl` takes username and password as parameters.
- Argument parsing is not modelled: `StoreAppAction.__call__`, `setup_parser`, the action registry metaclass and `_build_namespace`. This is argparse plumbing. `CopyTargetFor` takes the identifier that `__call__` stores, which is all None when no new app is given.
- Logging handler setup and tty colouring are not modelled. Only the filters' predicates are.
- `script.py` is not part of this model. It only wraps a process call.
- `Selfservice.Curl`: values are taken as already rendered by `'%s=%s'`, so `Arg` holds text.
- `ActionNames.Underscore`, `ActionNames.ActionName`: `lower()` is modelled for ASCII letters only. Unicode case mapping is not modelled.
- `ActionNames.ActionName`: requires a non-empty class name, which every Python class has. `underscore` would return None for an empty one, and `replace` would then fail.
- `RangeFilter.Filter.Accepts`: requires at least one bound. With both None, the comparison with None raises TypeError.
- `AppVersions.FindApp`: `LooseVersion` is a total-preorder parameter, and its tokenisation is not modelled.
- `AppVersions.FindApp`: Python 3's `LooseVersion` is not total. Comparing a numeric component with an alphabetic one raises TypeError: `"4.0 ucs-1"`, the client's own bump output, against `"4.0.1"` compares `' '` with `1`. On such candidates `_find_app` ends in an uncaught TypeError. The model's "Ok iff a candidate exists" holds only under the total-preorder abstraction.
- `AppVersions.FindApp`: requires that no two different candidates have versions that compare equal. `sorted` would then compare the records and raise TypeError.
- `NewVersion.MatchUcsSuffix`: `\d` is modelled as ASCII digits only.
- `NewVersion.NextAppVersionCounter`: proved for one-line versions only. For a version with a newline, `MatchOfSuffixed` states what happens: earlier lines are dropped.
- `Upload.UploadMain`: `abspath`, `exists` and `os.stat` are not modelled. They become a sequence of `FileEntry(name, present, size)`.
- `Upload.UploadMain`: failures during an upload (an `Abort` from `_find_app` or `_get_result` after earlier batches went out) are not modelled. The warnings and progress messages are not modelled either.
- `ExitStatus.ExitCode`: the status is the value handed to `sys.exit`. The operating system's truncation to 8 bits is not modelled.
- The other subcommands (`List`, `Status`, `RemoveVersion`, `Get`, `Set`) only chain these operations with I/O, and are not modelled.
