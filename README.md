# certbot-apache utility functions, modelled in Dafny

This project models the helper module of certbot's Apache plugin
(`certbot_apache/_internal/apache_util.py`). The model covers:

- how Apache `Define` variables are read from an environment file
  (`parse_define_file`) and from `apachectl -t -D DUMP_RUN_CFG`
  (`parse_defines`);
- how an Augeas path such as `/files/etc/apache2/sites-enabled/a.conf/VirtualHost`
  is split into the file that exists on disk and the path inside that file
  (`_split_aug_path`, `get_file_path`, `get_internal_aug_path`);
- how a file is copied with hash verification and retries (`safe_copy`);
- how the entry for Apache's OCSP stapling cache is laid out
  (`get_apache_ocsp_struct`);
- two small lookups: the known module dependencies (`get_mod_deps`) and
  wildcard path inclusion (`included_in_paths`);
- the runtime-configuration commands (`_get_runtime_cfg`,
  `parse_from_subprocess`, `parse_includes`, `parse_modules`).

The modules are:

- `Outcomes` (`outcomes.dfy`): `Option`, `Result`, and one `Error`
  constructor per exception the module raises.
- `Text` (`text.dfy`): Python's `str.split()`, `partition`, `rpartition`
  and `"/".join`.
- `VariableMaps` (`variable_maps.dfy`): one `NAME=value` token, and a
  dictionary built by successive assignments, where the last write wins.
- `DefineFile` (`define_file.dfy`): `parse_define_file`.
- `RuntimeConfig` (`runtime_config.dfy`): the `apachectl` dump commands
  and `parse_defines`.
- `AugeasPath` (`augeas_path.dfy`): the Augeas path splitting. The
  filesystem is the set of paths that exist.
- `SafeCopy` (`safe_copy.dfy`): `safe_copy`. What the filesystem does in
  each attempt is an input.
- `OcspCache` (`ocsp_cache.dfy`): `get_apache_ocsp_struct` and the
  packing of a C `long`.
- `Lookups` (`lookups.dfy`): `get_mod_deps` and `included_in_paths`.

The loops of the source are methods proved against specification
functions. Those functions are related to independent reference
definitions by lemmas:

- the `_split_aug_path` loop is the "longest existing `/`-prefix";
- the `safe_copy` loop is "decided by the first attempt that settles it";
- the dictionary loops are "last assignment wins".

The source has no classes; its state lives in local variables, so no
Dafny class is needed.

## Model

| member | source | states |
|---|---|---|
| Text.Words | certbot-apache/certbot_apache/_internal/apache_util.py:199 | `str.split()`: every piece is a non-empty run of non-whitespace characters (that the pieces are exactly the maximal runs, in order, is `Text.WordsIff`) |
| Text.WordsOfLayout | certbot-apache/certbot_apache/_internal/apache_util.py:199 | a string made of whitespace gaps and words, with at least one whitespace character between two words, splits into exactly those words |
| Text.WordsHaveLayout | certbot-apache/certbot_apache/_internal/apache_util.py:199 | every string is made of its split words and whitespace gaps, with at least one whitespace character between two words |
| Text.WordsIff | certbot-apache/certbot_apache/_internal/apache_util.py:199 | `s.split()` is `ws` exactly when `s` is `ws` laid out between whitespace gaps, inner gaps non-empty: the pieces are all of the maximal non-whitespace runs, in order |
| Text.WordsOfJoin | certbot-apache/certbot_apache/_internal/apache_util.py:199 | splitting whitespace-free words joined by single spaces gives the words back |
| Text.Partition | certbot-apache/certbot_apache/_internal/apache_util.py:203 | `partition("=")`: the head has no `=`; found exactly when `=` occurs, and then head `=` tail is the input; otherwise the head is the input and the tail is empty |
| Text.RPartition | certbot-apache/certbot_apache/_internal/apache_util.py:181 | `rpartition("/")`: the tail has no `/`; found exactly when `/` occurs, and then head `/` tail is the input; otherwise the head is empty and the tail is the input |
| Text.Reverse | certbot-apache/certbot_apache/_internal/apache_util.py:184 | `reversed`: same length, element i is element n-1-i of the input |
| VariableMaps.ParseAssignment | certbot-apache/certbot_apache/_internal/apache_util.py:203-204 | the name holds no `=`; with an `=` in the token, name `=` value is the token; without one the token is the name and the value is empty |
| VariableMaps.AssignmentOfJoin | certbot-apache/certbot_apache/_internal/apache_util.py:259-260 | a token `NAME=value` (NAME without `=`) gives back exactly NAME and value, whatever `=` the value holds |
| VariableMaps.ApplyStep | certbot-apache/certbot_apache/_internal/apache_util.py:204 | one more assignment updates exactly that name; a word that assigns nothing leaves the dictionary unchanged |
| VariableMaps.ApplyKeys | certbot-apache/certbot_apache/_internal/apache_util.py:197-209 | a name is in the resulting dictionary exactly when some step assigned it |
| VariableMaps.ApplyLastWrite | certbot-apache/certbot_apache/_internal/apache_util.py:200-208 | the value of a name is the one given by its last assignment |
| DefineFile.ParseDefineFile | certbot-apache/certbot_apache/_internal/apache_util.py:187-209 | the loop builds the dictionary of the word-by-word assignments with the last write winning |
| DefineFile.DefinedNames | certbot-apache/certbot_apache/_internal/apache_util.py:200-208 | a name is defined exactly when some `-D NAME[=v]` pair or `-DNAME[=v]` word assigns it |
| DefineFile.SeparateDefine | certbot-apache/certbot_apache/_internal/apache_util.py:202-204 | a `-D` followed by a word defines that word's name with its value, unless a later word redefines it |
| DefineFile.GluedDefine | certbot-apache/certbot_apache/_internal/apache_util.py:205-208 | a word `-DNAME=value` longer than `-D` defines NAME with that value, unless a later word redefines it |
| DefineFile.WordWritesNothing | certbot-apache/certbot_apache/_internal/apache_util.py:200-208 | a word writes nothing exactly when it does not start with `-D`, or is a lone `-D` with no word after it |
| DefineFile.ExampleWrites | certbot-apache/certbot_apache/_internal/apache_util.py:200-208 | in `-D a=x -Db=y -D c`, each `-D` assigns the next word, a word that follows `-D` assigns nothing on its own turn, `-Db=y` assigns b, and a name without `=` gets the empty value |
| DefineFile.Example | certbot-apache/certbot_apache/_internal/apache_util.py:187-209 | `-D a=x -Db=y -D c` yields `{a: x, b: y, c: ""}` |
| DefineFile.DefinesOfJoin | certbot-apache/certbot_apache/_internal/apache_util.py:199 | an option string built from words parses as those words |
| RuntimeConfig.DumpCommand | certbot-apache/certbot_apache/_internal/apache_util.py:245-246 | the dump command is the four words `apachectl -t -D <mode>` |
| RuntimeConfig.RuntimeCfg | certbot-apache/certbot_apache/_internal/apache_util.py:311-342 | a command that cannot be started raises the access error; a nonzero exit raises the misconfiguration error; otherwise the result is stdout |
| RuntimeConfig.ParseFromSubprocess | certbot-apache/certbot_apache/_internal/apache_util.py:297-308 | the matches found in stdout when the command succeeds; otherwise the error of `_get_runtime_cfg` |
| RuntimeConfig.ParseIncludes | certbot-apache/certbot_apache/_internal/apache_util.py:265-278 | the matches in the stdout of `apachectl -t -D DUMP_INCLUDES` when it exits with 0; the access error when it cannot be started; the misconfiguration error on a nonzero exit |
| RuntimeConfig.ParseModules | certbot-apache/certbot_apache/_internal/apache_util.py:281-294 | the matches in the stdout of `apachectl -t -D DUMP_MODULES` when it exits with 0; the access error when it cannot be started; the misconfiguration error on a nonzero exit |
| RuntimeConfig.FirstOccurrence | certbot-apache/certbot_apache/_internal/apache_util.py:249 | the first position holding the value, as `list.remove` finds it |
| RuntimeConfig.RemoveFirst | certbot-apache/certbot_apache/_internal/apache_util.py:249 | `list.remove`: one fewer element and one fewer occurrence; the list before the first occurrence and the list after it are kept |
| RuntimeConfig.FillFromFails | certbot-apache/certbot_apache/_internal/apache_util.py:253-258 | any token with more than one `=` from the current position on makes the loop raise |
| RuntimeConfig.FillFromSucceeds | certbot-apache/certbot_apache/_internal/apache_util.py:253-260 | without such a token the loop ends with every token's assignment applied in order |
| RuntimeConfig.DefinesFromMatches | certbot-apache/certbot_apache/_internal/apache_util.py:248-262 | the loop after the command returns the runtime defines of the matches |
| RuntimeConfig.ParseDefines | certbot-apache/certbot_apache/_internal/apache_util.py:233-262 | command errors pass through; otherwise the result is the runtime defines of the matches |
| RuntimeConfig.NoSentinelNoVariables | certbot-apache/certbot_apache/_internal/apache_util.py:248-251 | without `DUMP_RUN_CFG` among the matches the result is the empty dictionary |
| RuntimeConfig.SentinelThenTokens | certbot-apache/certbot_apache/_internal/apache_util.py:248-262 | with the marker, the result is an error exactly when a remaining token is ambiguous, and otherwise all remaining assignments applied in order |
| RuntimeConfig.AmbiguousRejected | certbot-apache/certbot_apache/_internal/apache_util.py:253-258 | the result is an error exactly when the marker is present and some other match has two or more `=`; the error is the runtime-variables error |
| RuntimeConfig.RuntimeDefinedNames | certbot-apache/certbot_apache/_internal/apache_util.py:259-260 | a name is defined exactly when some remaining match assigns it |
| RuntimeConfig.RuntimeLastDefineWins | certbot-apache/certbot_apache/_internal/apache_util.py:259-260 | a name's value comes from its last assignment among the matches |
| RuntimeConfig.LeadingSentinel | certbot-apache/certbot_apache/_internal/apache_util.py:249 | only the first `DUMP_RUN_CFG` is removed; when it leads, the rest are the tokens |
| RuntimeConfig.SingleEqualsNotAmbiguous | certbot-apache/certbot_apache/_internal/apache_util.py:254 | `NAME=value` with no other `=` is accepted |
| RuntimeConfig.TwoEqualsAmbiguous | certbot-apache/certbot_apache/_internal/apache_util.py:254 | any token with two `=` is rejected |
| RuntimeConfig.ExampleDump | certbot-apache/certbot_apache/_internal/apache_util.py:233-262 | `[DUMP_RUN_CFG, a=x, b]` gives `{a: x, b: ""}` |
| RuntimeConfig.ExampleAmbiguous | certbot-apache/certbot_apache/_internal/apache_util.py:253-258 | `[DUMP_RUN_CFG, a=b=c]` raises the runtime-variables error |
| AugeasPath.LongestCut | certbot-apache/certbot_apache/_internal/apache_util.py:163-184 | reference: the longest prefix of the path, ending at the end or before a `/`, that exists |
| AugeasPath.SuffixJoin | certbot-apache/certbot_apache/_internal/apache_util.py:184 | the components removed so far, joined with `/` in reverse order, are the text removed from the path |
| AugeasPath.StopAt | certbot-apache/certbot_apache/_internal/apache_util.py:180-184 | where the loop stops, the file path is an existing prefix and the joined parts are the rest |
| AugeasPath.SuffixPush | certbot-apache/certbot_apache/_internal/apache_util.py:181-182 | one more `rpartition` step moves one component from the file path into the removed text |
| AugeasPath.SplitFromIsLongestCut | certbot-apache/certbot_apache/_internal/apache_util.py:180-184 | the loop stops at the longest existing prefix, and it never stops when no prefix exists |
| AugeasPath.SplitIsReference | certbot-apache/certbot_apache/_internal/apache_util.py:163-184 | `_split_aug_path` equals the reference split at the longest existing prefix |
| AugeasPath.SplitTerminatesIff | certbot-apache/certbot_apache/_internal/apache_util.py:180-182 | the loop stops exactly when some `/`-prefix of the path after `/files` exists |
| AugeasPath.SplitSound | certbot-apache/certbot_apache/_internal/apache_util.py:163-184 | the file path exists; file path `/` internal path (or the file path alone) is the path after `/files`; no longer prefix exists |
| AugeasPath.SplitRoundTrip | certbot-apache/certbot_apache/_internal/apache_util.py:163-184 | `/files` + P + `/` + S splits into (P, S) when P exists and no longer prefix does |
| AugeasPath.ShrinkTimesCuts | certbot-apache/certbot_apache/_internal/apache_util.py:180-181 | every path the loop visits is a `/`-prefix of the input, or empty |
| AugeasPath.UnsplittableNeverExits | certbot-apache/certbot_apache/_internal/apache_util.py:180-181 | with no existing prefix, no number of loop passes reaches an existing path, and the empty path stays empty |
| AugeasPath.SplitAugPath | certbot-apache/certbot_apache/_internal/apache_util.py:163-184 | the loop returns the split: an existing file path and the internal path that completes it |
| AugeasPath.GetFilePath | certbot-apache/certbot_apache/_internal/apache_util.py:134-148 | None exactly for an empty path or one not under `/files/`; otherwise the existing file part of the split |
| AugeasPath.GetInternalAugPath | certbot-apache/certbot_apache/_internal/apache_util.py:151-160 | the internal part of the split, which completes the file path to the input |
| SafeCopy.CopyFrom | certbot-apache/certbot_apache/_internal/apache_util.py:79-97 | at most three copies; every attempt that runs copies first |
| SafeCopy.FirstSettled | certbot-apache/certbot_apache/_internal/apache_util.py:79-94 | reference: the first attempt whose copy raises or whose hashes match |
| SafeCopy.CopyFromFirstSettled | certbot-apache/certbot_apache/_internal/apache_util.py:79-97 | the first settling attempt decides: a copy error aborts with its reason, matching hashes succeed, none raises the integrity error after three copies |
| SafeCopy.VerifiedIff | certbot-apache/certbot_apache/_internal/apache_util.py:79-94 | success exactly when some attempt produced matching hashes and no earlier copy raised |
| SafeCopy.ExhaustedIff | certbot-apache/certbot_apache/_internal/apache_util.py:95-97 | the integrity error exactly when no attempt settled, and then copy ran three times |
| SafeCopy.CopyErrorAborts | certbot-apache/certbot_apache/_internal/apache_util.py:80-86 | a copy that raises ends `safe_copy` at once with that error |
| SafeCopy.SafeCopy | certbot-apache/certbot_apache/_internal/apache_util.py:67-97 | the loop returns the outcome of the first settling attempt, after one to three copies |
| OcspCache.LittleEndian | certbot-apache/certbot_apache/_internal/apache_util.py:38 | a number packed in `width` bytes takes exactly `width` bytes |
| OcspCache.FromLittleEndian | certbot-apache/certbot_apache/_internal/apache_util.py:38 | bytes read as a number stay below 256^n |
| OcspCache.FromLittleEndianInverse | certbot-apache/certbot_apache/_internal/apache_util.py:38 | reading packed bytes gives the number back |
| OcspCache.LittleEndianInverse | certbot-apache/certbot_apache/_internal/apache_util.py:38 | packing the value of some bytes gives the bytes back |
| OcspCache.PackLong | certbot-apache/certbot_apache/_internal/apache_util.py:38 | `struct.pack('l', n)` succeeds exactly for n in the signed 64-bit range and then gives 8 bytes; otherwise it raises |
| OcspCache.UnpackLong | certbot-apache/certbot_apache/_internal/apache_util.py:38 | any 8 bytes read as a signed 64-bit value |
| OcspCache.PackUnpack | certbot-apache/certbot_apache/_internal/apache_util.py:38 | unpacking a packed `long` gives it back |
| OcspCache.UnpackPack | certbot-apache/certbot_apache/_internal/apache_util.py:38 | any 8 bytes are the packing of the `long` they hold |
| OcspCache.OcspStruct | certbot-apache/certbot_apache/_internal/apache_util.py:26-39 | succeeds exactly when the expiry in microseconds fits a `long`; the entry is 8 bytes that unpack to the expiry, the byte 0x01, then the response |
| Lookups.ModDepsHaveNoDeps | certbot-apache/certbot_apache/_internal/apache_util.py:115-131 | no dependency has dependencies of its own, and no module depends on itself |
| Lookups.IncludedInPaths | certbot-apache/certbot_apache/_internal/apache_util.py:217-230 | true exactly when the file matches some pattern of the list |
| Lookups.IncludedInConcat | certbot-apache/certbot_apache/_internal/apache_util.py:230 | a file is included by two lists together exactly when one of them includes it |

## Left out

- Regular expressions: the `re.findall` of `parse_from_subprocess` is the
  parameter `findall` of the runtime-configuration functions. The patterns
  `Define: ([^ \n]*)`, `\(.*\) (.*)` and `(.*)_module` are not modelled.
- Processes: `subprocess.Popen` and `communicate` become the input
  `ProcessRun`, which is either "could not be started" or an exit code with
  stdout and stderr. The `universal_newlines` decoding is not modelled.
- Reading the environment file: `util.get_var_from_file` is outside this
  module. `ParseDefineFile` takes the variable's value as its input.
- Files in `safe_copy`: `shutil.copy2`, SHA-256 hashing (`_file_hash`) and
  `time.sleep(1)` are not modelled. Each attempt's outcome is an input
  (`Round`), and the digests are compared as strings.
- `os.path.exists` becomes membership in a set of existing paths. Symbolic
  links and permissions are not modelled.
- Time in `get_apache_ocsp_struct`: `time.time()` is the input `nowMicros`
  (microseconds). The float arithmetic and the truncation of
  `int(ttl*1000000)` are not modelled, so `ttl` is a whole number of
  seconds.
- `struct.pack('l', …)` is fixed to the LP64 little-endian `long` (8 bytes).
  Other native sizes and byte orders are not modelled.
- `fnmatch.fnmatch` is the parameter `fnmatch` of `IncludedInPaths`. Its
  pattern language and case normalisation are not modelled.
- `certid_sha1_hex`, `certid_sha1` and `cert_sha1_fingerprint` (X.509
  parsing and SHA-1) are not modelled. Nor is `unique_id` (operating system
  randomness) or `find_ssl_apache_conf` (a package resource path).
- Logging calls and the text of exception messages: each exception is an
  `Error` constructor that carries the values the message is built from.
- AugeasPath.SplitAugPath: requires that some `/`-prefix of the path
  exists. Without one, the source's loop never terminates (it reaches `""`,
  which `rpartition` leaves unchanged). `UnsplittableNeverExits` states
  that behaviour, but a terminating method cannot return it. The same
  precondition carries over to `GetFilePath` and `GetInternalAugPath`.
- SafeCopy.SafeCopy: the per-attempt outcomes must cover all three attempts
  (`|rounds| >= 3`). Only the attempts that actually run are consulted.
- Lookups.ModDeps carries no contract of its own; the lemma
  `ModDepsHaveNoDeps` states what callers rely on.
