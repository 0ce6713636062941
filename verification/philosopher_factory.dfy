/**
  The persona factory: a registry of three parallel tables keyed by a
  lower-case philosopher identifier (display name, conversational style,
  philosophical perspective), and the lookup that lowers a requested
  identifier, checks it against the tables in a fixed order and composes a
  record. The factory's exceptions PhilosopherNameNotFound,
  PhilosopherPerspectiveNotFound and PhilosopherStyleNotFound become the error
  variants of `Lookup`, each carrying the lowered key.
 */
module PhilosopherFactory {
  import opened AsciiCase
  import opened OrderedDict

  /** The immutable record handed to callers. */
  datatype Philosopher = Philosopher(id: string, name: string, perspective: string, style: string)

  /** Outcome of a lookup: the record, or the first table that lacks the key. */
  datatype Lookup =
    | Ok(philosopher: Philosopher)
    | NameNotFound(key: string)
    | PerspectiveNotFound(key: string)
    | StyleNotFound(key: string)

  /** The three parallel tables; nothing forces them to share a key set. */
  datatype Registry = Registry(names: Dict, styles: Dict, perspectives: Dict)

  /** Every table holds each of its keys once, as any Python dict does. */
  predicate WellFormed(reg: Registry) {
    Distinct(Keys(reg.names)) && Distinct(Keys(reg.styles)) && Distinct(Keys(reg.perspectives))
  }

  /** The three tables have the same key set. */
  predicate Consistent(reg: Registry) {
    && (forall k :: k in Keys(reg.names) ==> k in Keys(reg.styles))
    && (forall k :: k in Keys(reg.perspectives) ==> k in Keys(reg.styles))
    && (forall k :: k in Keys(reg.styles) ==> k in Keys(reg.names) && k in Keys(reg.perspectives))
  }

  /**
    The lookup over any registry, consistent or not: the key is the lowered
    identifier; the tables are consulted names, then perspectives, then styles,
    and the first that lacks the key decides the error.
   */
  function Get(reg: Registry, id: string): (r: Lookup)
    ensures r.Ok? <==> Lower(id) in Keys(reg.names) && Lower(id) in Keys(reg.perspectives) && Lower(id) in Keys(reg.styles)
    ensures r.NameNotFound? <==> Lower(id) !in Keys(reg.names)
    ensures r.PerspectiveNotFound? <==> Lower(id) in Keys(reg.names) && Lower(id) !in Keys(reg.perspectives)
    ensures r.StyleNotFound? <==>
              Lower(id) in Keys(reg.names) && Lower(id) in Keys(reg.perspectives) && Lower(id) !in Keys(reg.styles)
    ensures !r.Ok? ==> r.key == Lower(id)
    ensures r.Ok? ==> r.philosopher.id == Lower(id)
    ensures r.Ok? ==>
              && (Lower(id), r.philosopher.name) in reg.names
              && (Lower(id), r.philosopher.perspective) in reg.perspectives
              && (Lower(id), r.philosopher.style) in reg.styles
    ensures r.Ok? && WellFormed(reg) ==>
              && (forall i :: 0 <= i < |reg.names| && reg.names[i].0 == Lower(id) ==>
                                reg.names[i].1 == r.philosopher.name)
              && (forall i :: 0 <= i < |reg.perspectives| && reg.perspectives[i].0 == Lower(id) ==>
                                reg.perspectives[i].1 == r.philosopher.perspective)
              && (forall i :: 0 <= i < |reg.styles| && reg.styles[i].0 == Lower(id) ==>
                                reg.styles[i].1 == r.philosopher.style)
  {
    var key := Lower(id);
    if key !in Keys(reg.names) then NameNotFound(key)
    else if key !in Keys(reg.perspectives) then PerspectiveNotFound(key)
    else if key !in Keys(reg.styles) then StyleNotFound(key)
    else
      Ok(Philosopher(
           id := key,
           name := Find(reg.names, key).value,
           perspective := Find(reg.perspectives, key).value,
           style := Find(reg.styles, key).value))
  }

  /** Identifiers that differ only in letter case give the same outcome, success or error. */
  lemma GetIgnoresCase(reg: Registry, s: string, t: string)
    requires EqualIgnoringCase(s, t)
    ensures Get(reg, s) == Get(reg, t)
  {
    LowerEqualIff(s, t);
  }

  /** Asking for the upper-cased identifier is the same as asking for the identifier. */
  lemma {:induction false} GetUpperCase(reg: Registry, s: string)
    ensures Get(reg, Upper(s)) == Get(reg, s)
  {
    GetIgnoresCase(reg, Upper(s), s);
  }

  /** Fetching again by a returned record's id yields the identical record. */
  lemma RefetchById(reg: Registry, id: string)
    requires Get(reg, id).Ok?
    ensures Get(reg, Get(reg, id).philosopher.id) == Get(reg, id)
  {
    LowerIdempotent(id);
  }

  /** In a consistent registry every lower-case key of the styles table can be fetched. */
  lemma ConsistentKeyFetchable(reg: Registry, k: string)
    requires Consistent(reg)
    requires k in Keys(reg.styles)
    requires IsLower(k)
    ensures Get(reg, k).Ok? && Get(reg, k).philosopher.id == k
  {
    LowerFixesLowercase(k);
  }

  /** The registry as compiled in: three dict literals with the same keys in the same order. */
  const KEYS: seq<string> := ["plato", "aristotle", "ramanuja"]

  const NAME_PAIRS: seq<Entry> := [("plato", "Plato"), ("aristotle", "Aristotle"), ("ramanuja", "Ramanuja")]

  const STYLE_PAIRS: seq<Entry> :=
    [("plato", PLATO_STYLE), ("aristotle", ARISTOTLE_STYLE), ("ramanuja", RAMANUJA_STYLE)]

  const PERSPECTIVE_PAIRS: seq<Entry> :=
    [("plato", PLATO_PERSPECTIVE), ("aristotle", ARISTOTLE_PERSPECTIVE), ("ramanuja", RAMANUJA_PERSPECTIVE)]

  const NAMES: Dict := FromPairs(NAME_PAIRS)

  const STYLES: Dict := FromPairs(STYLE_PAIRS)

  const PERSPECTIVES: Dict := FromPairs(PERSPECTIVE_PAIRS)

  const REGISTRY := Registry(NAMES, STYLES, PERSPECTIVES)

  /** The listed keys are taken from the styles table, in its declaration order. */
  const AVAILABLE_PHILOSOPHERS: seq<string> := Keys(STYLES)

  // The style and perspective texts, abbreviated to their opening words.
  const PLATO_STYLE := "Plato takes you on mystical journeys through abstract realms of thought"

  const ARISTOTLE_STYLE := "Aristotle methodically dissects your arguments with logical precision"

  const RAMANUJA_STYLE := "Ramanuja will lead you through the path of Vishishtadvaita"

  const PLATO_PERSPECTIVE := "Plato is an idealist who urges you to look beyond mere algorithms and data"

  const ARISTOTLE_PERSPECTIVE := "Aristotle is a systematic thinker who analyzes AI through logic"

  const RAMANUJA_PERSPECTIVE := "Ramanuja is a theologian of Qualified Non-Dualism"

  lemma KeysDistinct()
    ensures Distinct(KEYS)
  {
  }

  lemma NamesTable()
    ensures NAMES == NAME_PAIRS && Keys(NAMES) == KEYS
  {
    assert Keys(NAME_PAIRS) == KEYS;
    KeysDistinct();
    FromDistinctPairs(NAME_PAIRS);
  }

  lemma StylesTable()
    ensures STYLES == STYLE_PAIRS && Keys(STYLES) == KEYS
  {
    assert Keys(STYLE_PAIRS) == KEYS;
    KeysDistinct();
    FromDistinctPairs(STYLE_PAIRS);
  }

  lemma PerspectivesTable()
    ensures PERSPECTIVES == PERSPECTIVE_PAIRS && Keys(PERSPECTIVES) == KEYS
  {
    assert Keys(PERSPECTIVE_PAIRS) == KEYS;
    KeysDistinct();
    FromDistinctPairs(PERSPECTIVE_PAIRS);
  }

  /** The three literals hold no repeated key, so each table is its literal, in order. */
  lemma RegistryTables()
    ensures NAMES == NAME_PAIRS && STYLES == STYLE_PAIRS && PERSPECTIVES == PERSPECTIVE_PAIRS
    ensures Keys(NAMES) == KEYS && Keys(STYLES) == KEYS && Keys(PERSPECTIVES) == KEYS
    ensures WellFormed(REGISTRY) && Consistent(REGISTRY)
  {
    KeysDistinct();
    NamesTable();
    StylesTable();
    PerspectivesTable();
  }

  /** The factory's lookup on the compiled-in registry. */
  function GetPhilosopher(id: string): (r: Lookup)
    ensures r.Ok? <==> Lower(id) in ["plato", "aristotle", "ramanuja"]
    ensures !r.Ok? ==> r == NameNotFound(Lower(id))
    ensures Lower(id) == "plato" ==> r == Ok(Philosopher("plato", "Plato", PLATO_PERSPECTIVE, PLATO_STYLE))
    ensures Lower(id) == "aristotle" ==>
              r == Ok(Philosopher("aristotle", "Aristotle", ARISTOTLE_PERSPECTIVE, ARISTOTLE_STYLE))
    ensures Lower(id) == "ramanuja" ==>
              r == Ok(Philosopher("ramanuja", "Ramanuja", RAMANUJA_PERSPECTIVE, RAMANUJA_STYLE))
  {
    RegistryTables();
    Get(REGISTRY, id)
  }

  /** The listing: the registered keys in declaration order, each once. */
  function GetAvailablePhilosophers(): (r: seq<string>)
    ensures r == ["plato", "aristotle", "ramanuja"]
    ensures Distinct(r)
    ensures forall k :: k in r <==> k in Keys(NAMES) && k in Keys(PERSPECTIVES) && k in Keys(STYLES)
  {
    RegistryTables();
    AVAILABLE_PHILOSOPHERS
  }

  lemma KeysAreLowercase()
    ensures forall k :: k in KEYS ==> IsLower(k)
  {
  }

  /** Every listed key can be fetched, and the record's id is that key. */
  lemma EveryListedKeyFetchable(k: string)
    requires k in GetAvailablePhilosophers()
    ensures GetPhilosopher(k).Ok? && GetPhilosopher(k).philosopher.id == k
  {
    KeysAreLowercase();
    LowerFixesLowercase(k);
  }

  lemma SocratesNotListed()
    ensures "socrates" !in KEYS
  {
  }

  /** An unregistered identifier fails on the names table, carrying its lowered form. */
  lemma SocratesIsUnknown()
    ensures GetPhilosopher("socrates") == NameNotFound("socrates")
  {
    LowerFixesLowercase("socrates");
    SocratesNotListed();
  }

  /** An all-capitals request returns the same record as the lower-case one. */
  lemma AristotleInCapitals()
    ensures GetPhilosopher("ARISTOTLE") == GetPhilosopher("aristotle")
  {
    assert EqualIgnoringCase("ARISTOTLE", "aristotle");
    LowerEqualIff("ARISTOTLE", "aristotle");
  }

  /** A key present in the names table only fails on perspectives, not on names. */
  lemma NamesOnlyRegistry()
    ensures Get(Registry([("kant", "Kant")], [], []), "kant") == PerspectiveNotFound("kant")
  {
    LowerFixesLowercase("kant");
    assert Keys([("kant", "Kant")]) == ["kant"];
  }
}
