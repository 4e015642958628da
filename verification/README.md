# Jumanji environment registry, modelled in Dafny

This project models the environment registry of Jumanji (`jumanji/registration.py`).
The registry maps a versioned identifier such as `cartpole-v0` to a spec. The spec holds
the entry point the environment's constructor is loaded from (`module:attribute`) and the
default keyword arguments for that constructor. The registry has two parts:

- **Identifier grammar** (`env_id.dfy`, module `EnvId`). `parse_env_id` matches an
  identifier against the pattern `^(?:(?P<name>[\w:.-]+?))(?:-v(?P<version>\d+))?$` and
  returns `(name, version)`. `get_env_id` formats a pair back into `name-vVERSION`.
  - `MatchFrom` follows the regex engine's search order: the lazy name group grows one
    character at a time, and at each length the optional version group is tried before
    the end anchor.
  - That search is proved equal to an independent reading, `Reference`: the unique split
    `name + "-v" + digits` with a non-empty name, or else the whole string with version 0.
  - Parsing fails exactly on the empty string and on strings with a character outside
    ASCII letters, digits, `_`, `:`, `.` and `-`.
  - Formatting then parsing gives back the pair for every legal name and every version
    `>= 0`. Both statements ignore the interpreter's digit limit on `int` and `str`
    conversion (see "## Left out").
  - Canonicalisation (parse, then format) is idempotent and drops leading zeros.
  - The re-parse done when a spec is built never fails on a canonical identifier.
- **Registry state machine** (`registry.dfy`, module `Registry`).
  - Jumanji's process-wide `_REGISTRY` dictionary is an explicit value here: a
    sequence of `EnvSpec` records in insertion order.
  - `register` and `make` are pure functions returning a `Result`. A failed operation
    returns no registry, so the caller's registry is unchanged, as in Jumanji's registry.
  - `register` reports its errors in the source's order: malformed identifier, then
    duplicate identifier, then a non-zero first version.
  - A successful `register` appends exactly one spec, keyed by the canonical identifier.
    Every other identifier looks up as before.
  - `register` preserves three invariants: identifiers are unique; every key is the
    canonical identifier of its spec's legal name and version; every registered name
    has its version 0 registered.
  - `make` stops short of the constructor call. It returns the entry point split into
    module and attribute, the positional arguments, and the keyword arguments. The
    keyword arguments are the stored ones, overridden key by key by the call's.
  - `make` of an unregistered identifier fails with every registered identifier, in
    registration order.
- **Entry point split** (`entry_point.dfy`, module `EntryPoint`). `load` unpacks
  `name.split(":")` into a module name and an attribute name. The unpacking succeeds
  exactly when the entry point has one colon.

`results.dfy` holds the `Option` and `Result` wrappers and the error kinds. In Jumanji's registry
every error is a `ValueError`; the model tells them apart by the check that raises them.

Where one might read the registry's behaviour otherwise, the model follows the code:

- `"foo-v"` and `"foo-v-1"` are legal identifiers with version 0, not malformed ones.
  A `-v` that is not followed solely by digits stays in the name (`ParseKeepsSuffixInName`).
- The comment at `jumanji/registration.py:106` asks for version `v-1` to exist before `v`.
  The code checks only that some version of the name exists when the new version is not 0,
  so gaps are accepted (`RegisterAnyLaterVersion`). The model has no "versions `0..V-1`
  are present" invariant; it proves the weaker one the code keeps, "version 0 is present".

## Model

| member | source | states |
|---|---|---|
| EnvId.MatchFrom | jumanji/registration.py:22 | The regex search from a name of length k succeeds exactly when every character is legal, and then yields the unique split's name and version, or the whole string with version 0. |
| EnvId.Match | jumanji/registration.py:39-40 | fullmatch succeeds exactly on non-empty strings of legal characters, with the reference reading as result. |
| EnvId.Parse | jumanji/registration.py:25-51 | Parsing fails, with the identifier in the error, exactly on the empty string or a string with an illegal character. Otherwise it yields the reference reading, whose name is again a legal name. |
| EnvId.SplitUnique | jumanji/registration.py:22 | An identifier splits into name, `-v` and a digit tail in at most one place, so the lazy name group's choice is the only one. |
| EnvId.ParseVersionSuffix | jumanji/registration.py:46-51 | A legal name followed by `-v` and a non-empty digit run parses to that name and the digits' integer value. |
| EnvId.ParseWithoutSuffix | jumanji/registration.py:46-51 | A legal identifier with no version suffix parses to itself with the default version 0. |
| EnvId.NatToDecimal | jumanji/registration.py:65 | The rendered version is a non-empty digit run with no leading zero unless the version is 0. |
| EnvId.DecimalRoundTrip | jumanji/registration.py:49 | `int()` of a rendered version gives back the version. |
| EnvId.GetEnvId | jumanji/registration.py:54-67 | The identifier starts with the name followed by `-v`; an absent version and version 0 both give `name-v0`. |
| EnvId.Canonicalize | jumanji/registration.py:134-137 | Canonicalisation fails exactly when parsing fails, and then with the identifier in the error. |
| EnvId.RoundTrip | jumanji/registration.py:22-67 | Parsing a formatted identifier gives back the name and version, for every legal name and version >= 0. |
| EnvId.GetEnvIdInjective | jumanji/registration.py:54-67 | Two formatted identifiers of legal names are equal exactly when their name and version are. |
| EnvId.CanonicalReparses | jumanji/registration.py:134-142 | A canonical identifier re-parses to the same pair as the original identifier, so the post-init parse never fails. |
| EnvId.CanonicalizeIdempotent | jumanji/registration.py:134-137 | Canonicalising a canonical identifier leaves it unchanged. |
| EnvId.NegativeVersionStaysInName | jumanji/registration.py:64-65 | A negative version is formatted with its sign, and the result parses as a name with version 0. |
| EnvId.ParseRejectsExamples | jumanji/registration.py:39-44 | `""` and `"foo bar"` are malformed. |
| EnvId.ParseKeepsSuffixInName | jumanji/registration.py:22 | `"foo-v"`, `"foo-v-1"` and `"-v1"` are names with version 0. |
| EnvId.ParseTakesLastSuffix | jumanji/registration.py:22 | `"a-v1-v2"` parses to `("a-v1", 2)`. |
| EnvId.CanonicalizeDropsLeadingZeros | jumanji/registration.py:134-137 | `"foo-v007"` canonicalises to `"foo-v7"`. |
| EnvId.CanonicalizeAddsVersionZero | jumanji/registration.py:134-137 | `"cartpole"` canonicalises to `"cartpole-v0"`. |
| EntryPoint.IndexOfColon | jumanji/registration.py:159 | Finds the first colon of the entry point, or reports that there is none. |
| EntryPoint.SplitEntryPoint | jumanji/registration.py:159 | The two-way unpacking of `split(":")` succeeds exactly when there is one colon. The pieces contain no colon and rejoin to the entry point. |
| EntryPoint.SplitJoin | jumanji/registration.py:159 | Splitting `module + ":" + attribute` gives back both colon-free parts. |
| Registry.NewSpec | jumanji/registration.py:70-83 | Building a spec succeeds exactly on a legal identifier and stores the identifier's parsed name and version. |
| Registry.RegisteredEnvironments | jumanji/registration.py:188-189 | Lists one identifier per spec, in registration order. |
| Registry.Find | jumanji/registration.py:170-177 | Lookup succeeds exactly for registered identifiers and returns a stored spec with that identifier. |
| Registry.FindRegistered | jumanji/registration.py:177 | With unique identifiers, looking up a spec's identifier returns that spec. |
| Registry.LatestVersion | jumanji/registration.py:107-110 | None exactly when no spec has the name; otherwise the greatest version registered under the name. |
| Registry.CheckRegistrationIsAllowed | jumanji/registration.py:89-115 | A registered identifier is refused as a duplicate before anything else. A non-zero version is refused exactly when no version of its name is registered. Anything else passes. |
| Registry.Register | jumanji/registration.py:118-147 | Errors come in order: malformed identifier, then duplicate canonical identifier, then non-zero first version. Success appends the spec for the canonical identifier with the given entry point and kwargs. |
| Registry.MergeKwargs | jumanji/registration.py:180-181 | The merged kwargs have every key of either map, with the call-time value winning; with no call kwargs they are the stored ones. |
| Registry.Make | jumanji/registration.py:166-183 | A malformed identifier fails first. An unregistered canonical identifier then fails with every registered identifier in order. Otherwise the result is the stored entry point's parts, the arguments, and the merged kwargs, or the entry point's split error. |
| Registry.AppendPreservesValid | jumanji/registration.py:144-147 | Appending a spec the checks accept, keyed canonically, keeps all three registry invariants. |
| Registry.RegisterPreservesValid | jumanji/registration.py:144-147 | A successful register keeps the three registry invariants. |
| Registry.RegisterAppendsKey | jumanji/registration.py:147 | A successful register adds exactly the canonical identifier, last in `registered_environments`. |
| Registry.RegisterChangesOnlyItsKey | jumanji/registration.py:147 | After a successful register, the new key finds the new spec and every other identifier finds what it found before. |
| Registry.NameVersionUnique | jumanji/registration.py:103-104 | In a valid registry no two specs share both name and version. |
| Registry.MakeAfterRegister | jumanji/registration.py:166-185 | After a successful register, make succeeds with any identifier of the same canonical form. It uses the registered entry point and the stored kwargs merged with the call's. |
| Registry.RegisterVersionZero | jumanji/registration.py:107-115 | Version 0 of a name not yet registered is always accepted and appended. |
| Registry.RegisterAnyLaterVersion | jumanji/registration.py:106-115 | Once some version of a name is registered, any fresh version is accepted, whether or not the versions below it are. |
| Registry.RegisterTwiceFails | jumanji/registration.py:103-104 | Registering an identifier whose canonical form is already registered fails as a duplicate of that canonical identifier. |
| Registry.FirstVersionMustBeZero | jumanji/registration.py:112-115 | A non-zero version of a name with no registered version is refused with that version. |
| Registry.EmptyRegistryValid | jumanji/registration.py:86 | The initial empty registry satisfies the invariants and lists nothing. |

## Left out

- Python's Unicode meaning of `\w` and `\d`, and `int()` on non-ASCII digits: the model's
  character classes are ASCII only.
- The regex anchor `$` also matches before a final newline. Under `fullmatch` this changes
  nothing, because a newline is not a legal character, so it is not modelled separately.
- `importlib.import_module` and `getattr` in `load`, and the constructor call in `make`:
  these are foreign calls. `make` returns the module name, attribute name, arguments and
  merged kwargs that would be passed, and the errors those calls raise are not modelled.
- Keyword forwarding from `register` into the `EnvSpec` constructor, and the `TypeError`
  for an unexpected keyword: the default kwargs are one explicit map parameter.
- The global variable `_REGISTRY`, its mutation in place, and thread safety: the registry
  is passed and returned as a value.
- `EnvSpec` fields can be reassigned after construction, since the dataclass is not frozen;
  the model's spec record is immutable.
- The wording of error messages: errors carry the identifier, the version or the list of
  registered identifiers the message is built from.
- Keyword argument values are an uninterpreted type parameter: the registry never looks
  inside them.
- EnvId.Parse, EnvId.GetEnvId: the interpreter's limit of 4300 digits on converting
  between `int` and `str` (CPython 3.11 and later, and its security backports) is not
  modelled. `int(version)` raises `ValueError` on a version of more than 4300 digits, and
  formatting a version of 10^4300 or more raises as well. The model parses and formats
  decimals of any length, so its "fails exactly on" and round-trip statements hold for
  the program only below that limit.
- Registry.Register, Registry.Make: the stored default kwargs are the caller's dict
  itself, not a copy, so a later change to that dict shows up in the next `make`. The
  model stores the map as a value and does not model this sharing.
