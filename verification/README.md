# Philosopher factory — a Dafny model

This project models the persona factory of the PhiloAgents API. The factory holds a
compiled-in registry of three parallel dicts keyed by a lower-case philosopher
identifier: display names, conversational styles and philosophical perspectives. The list
of available identifiers is taken from the styles dict. `get_philosopher` lowers the
requested identifier. It then checks the names, perspectives and styles dicts in that
order and raises the exception of the first dict that lacks the key. Otherwise it returns
a `Philosopher` record built from the three entries. `get_available_philosophers` returns
the identifier list.

The model has three modules:

- `AsciiCase` (`ascii_case.dfy`) is the key normalisation, `str.lower` on ASCII letters.
- `OrderedDict` (`ordered_dict.dfy`) is the part of a Python dict the registry relies on.
  A dict is its entry sequence in insertion order. It supports `k in d`, `d[k]`, `d[k] = v`,
  evaluation of a literal `{k1: v1, ...}` and `list(d.keys())`. Keeping the order explicit
  lets the identifier list be *derived* from the styles dict, as in the source, rather
  than written down a second time.
- `PhilosopherFactory` (`philosopher_factory.dfy`) holds the record and outcome datatypes,
  the lookup `Get` over an arbitrary registry (consistent or not), the compiled-in registry
  and the two public operations on it.

The three exceptions become variants of the `Lookup` datatype: `NameNotFound`,
`PerspectiveNotFound` and `StyleNotFound`. Each carries the lowered key, as the exception
does.

Three facts about the code shape the model:

- The factory does not reject an empty identifier. It is looked up like any other key and
  fails with `NameNotFound("")`.
- Nothing checks at start-up that the three dicts share a key set, so `Get` is stated for
  arbitrary registries. `RegistryTables` proves that the compiled-in registry happens to
  be consistent.
- The docstring (line 48) says `ValueError`, but the code raises the three specific
  exceptions, and those are what is modelled.

## Model

| member | source | states |
|---|---|---|
| AsciiCase.Lower | philoagents-api/src/philoagents/domain/philosopher_factory.py:50 | the lowered identifier has the input's length and contains no upper-case letter |
| AsciiCase.LowerChar | philoagents-api/src/philoagents/domain/philosopher_factory.py:50 | a lowered character is never an upper-case letter, and every other character is left unchanged |
| AsciiCase.LowerAt | philoagents-api/src/philoagents/domain/philosopher_factory.py:50 | lowering works character by character: position i of the result is the lowered character i of the input |
| AsciiCase.LowerFixesLowercase | philoagents-api/src/philoagents/domain/philosopher_factory.py:50 | an identifier already in lower case is its own normal form |
| AsciiCase.LowerIdempotent | philoagents-api/src/philoagents/domain/philosopher_factory.py:50 | lowering twice is the same as lowering once |
| AsciiCase.LowerEqualIff | philoagents-api/src/philoagents/domain/philosopher_factory.py:50 | two identifiers lower to the same key exactly when they are equal ignoring letter case (both directions) |
| OrderedDict.Keys | philoagents-api/src/philoagents/domain/philosopher_factory.py:33-58 | the keys in insertion order, as `list(d.keys())` yields them, one per entry; `k in d` is `k in Keys(d)` |
| OrderedDict.KeysMembership | philoagents-api/src/philoagents/domain/philosopher_factory.py:52-58 | a key is in `Keys(d)` exactly when some entry of d carries it, which is what `k in d` tests |
| OrderedDict.Find | philoagents-api/src/philoagents/domain/philosopher_factory.py:52-65 | `d[k]` yields a value exactly when `k in d`; that value belongs to an entry of d with key k; when keys are distinct it is the value of every entry with key k |
| OrderedDict.Insert | philoagents-api/src/philoagents/domain/philosopher_factory.py:8-31 | assigning to an existing key keeps the key order; assigning a new key appends exactly that entry at the end |
| OrderedDict.InsertFind | philoagents-api/src/philoagents/domain/philosopher_factory.py:8-31 | after `d[k] = v`, key k reads back v and every other key reads as it did before |
| OrderedDict.FromPairs | philoagents-api/src/philoagents/domain/philosopher_factory.py:8-31 | a dict literal never holds a key twice, and its keys are exactly the keys written in the literal |
| OrderedDict.FromPairsLastWins | philoagents-api/src/philoagents/domain/philosopher_factory.py:8-31 | in a literal with a repeated key, the rightmost value is the one stored |
| OrderedDict.FromDistinctPairs | philoagents-api/src/philoagents/domain/philosopher_factory.py:8-33 | a literal without repeated keys evaluates to exactly its entries in declaration order, so `list(d.keys())` is the declared key order |
| PhilosopherFactory.Get | philoagents-api/src/philoagents/domain/philosopher_factory.py:50-66 | for any registry: success exactly when the lowered key is in all three dicts; NameNotFound exactly when it is missing from names; PerspectiveNotFound exactly when it is in names but not perspectives; StyleNotFound exactly when it is in both but not styles; each error carries the lowered key; on success the id is the lowered key and name, perspective and style are entries of the respective dicts under that key, and are the only such entries when the dicts have distinct keys |
| PhilosopherFactory.GetIgnoresCase | philoagents-api/src/philoagents/domain/philosopher_factory.py:50 | identifiers equal ignoring case give the same outcome, success or error, for any registry |
| PhilosopherFactory.GetUpperCase | philoagents-api/src/philoagents/domain/philosopher_factory.py:50 | requesting the upper-cased identifier (no lower-case ASCII letter left) gives the same outcome as requesting the identifier |
| PhilosopherFactory.RefetchById | philoagents-api/src/philoagents/domain/philosopher_factory.py:50-62 | fetching again by a returned record's id returns the identical record |
| PhilosopherFactory.ConsistentKeyFetchable | philoagents-api/src/philoagents/domain/philosopher_factory.py:33-66 | when the three dicts have the same keys, every lower-case key of the styles dict (the listed keys) is fetched successfully, with that key as id |
| PhilosopherFactory.RegistryTables | philoagents-api/src/philoagents/domain/philosopher_factory.py:8-33 | each compiled-in dict equals its literal; all three list the keys plato, aristotle, ramanuja in that order; the registry has distinct keys and is consistent |
| PhilosopherFactory.GetPhilosopher | philoagents-api/src/philoagents/domain/philosopher_factory.py:36-66 | on the compiled-in registry: success exactly when the lowered identifier is one of the three keys; any failure is NameNotFound of the lowered identifier; each key yields the record made of its name, perspective and style entries |
| PhilosopherFactory.GetAvailablePhilosophers | philoagents-api/src/philoagents/domain/philosopher_factory.py:69-75 | the listing is `AVAILABLE_PHILOSOPHERS`, which is `Keys(STYLES)`: plato, aristotle, ramanuja, in declaration order; it has no duplicates; its members are exactly the keys present in all three dicts |
| PhilosopherFactory.EveryListedKeyFetchable | philoagents-api/src/philoagents/domain/philosopher_factory.py:33-66 | every listed key is fetched successfully, and the record's id is that key |
| PhilosopherFactory.SocratesIsUnknown | philoagents-api/src/philoagents/domain/philosopher_factory.py:52-53 | an unregistered identifier such as "socrates" fails with NameNotFound("socrates") |
| PhilosopherFactory.AristotleInCapitals | philoagents-api/src/philoagents/domain/philosopher_factory.py:50-66 | "ARISTOTLE" and "aristotle" give the same outcome |
| PhilosopherFactory.NamesOnlyRegistry | philoagents-api/src/philoagents/domain/philosopher_factory.py:52-56 | in a registry whose key is only in the names dict, the lookup fails with PerspectiveNotFound rather than NameNotFound |

## Left out

- AsciiCase.Lower: only the ASCII letters A-Z are case-mapped. Python's `str.lower` also
  lowers non-ASCII letters and can change a string's length. Such an identifier reaches the
  same verdict on the compiled-in registry, because no registered key contains `k`, the one
  ASCII letter that a non-ASCII capital (the Kelvin sign) lowers to. The key carried by the
  error can still differ from Python's.
- The style and perspective texts are abbreviated to their opening words. Only key
  membership and the identity of the returned fields depend on them. The full prose makes
  every proof about the registry far more expensive without changing any property.
- The `Philosopher` record's own definition and serialisation live in
  `philoagents.domain.philosopher`, which is not part of this model. It is a plain
  four-field datatype here.
- The exception classes live in `philoagents.domain.exceptions`, which is not part of this
  model. They are `Lookup` variants carrying the key rather than raised objects.
- `get_available_philosophers` returns the module-level list object itself, so a caller
  that mutated it would change later results. The model returns an immutable sequence, and
  caller mutation is not modelled.
- Hashing and the dict's internal table are not modelled. A dict is its insertion-ordered
  entry sequence, which fixes membership, lookup and key order.
- Callers and use from several threads are not modelled. The factory has no state and no
  concurrency logic.
