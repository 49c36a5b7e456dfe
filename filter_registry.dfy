/**
 * The filter registry: a table from plug-in module names to filter classes.
 *
 * Loading looks at the modules of the filters directory in the order they
 * are given. It skips the package's own `__init__` and `base_filter`
 * modules, skips a module that fails to load, and otherwise registers the
 * module under its file stem with the first filter class among the module's
 * attributes (the base class itself does not count). `GetFilter` returns a
 * fresh instance of the named class, falls back to the class registered as
 * `default`, and fails with a message listing the available names when
 * neither exists.
 *
 * Scanning the directory and importing the modules are replaced by an
 * explicit list of module entries, each giving the stem, whether the import
 * succeeds, and the module's attributes in the order `dir` lists them.
 */
module FilterRegistry {
  import opened TextUtil
  import opened BaseFilter

  /** What `dir(module)` can yield, as far as the loader cares. */
  datatype Attribute =
    | BaseClassAttribute                  // `BaseContentFilter` itself, imported by the module
    | FilterClassAttribute(kind: FilterKind)  // a subclass of `BaseContentFilter`
    | OtherAttribute                      // anything else

  /** One `*.py` file of the filters directory. */
  datatype ModuleEntry = ModuleEntry(stem: string, loads: bool, attributes: seq<Attribute>)

  /** The name `get_filter` uses when none is given, and its fallback. */
  const DefaultName: string := "default"

  /** `__init__.py` and `base_filter.py` are not plug-ins. */
  predicate IsSkippedModule(stem: string) {
    stem == "__init__" || stem == "base_filter"
  }

  /** The first filter class among `attributes[i..]`. */
  function FirstFilterClassFrom(attributes: seq<Attribute>, i: nat): (r: Option<FilterKind>)
    requires i <= |attributes|
    ensures r.Some? ==> exists j | i <= j < |attributes| :: attributes[j] == FilterClassAttribute(r.value)
    ensures r.None? <==> forall j | i <= j < |attributes| :: !attributes[j].FilterClassAttribute?
    decreases |attributes| - i
  {
    if i == |attributes| then None
    else if attributes[i].FilterClassAttribute? then Some(attributes[i].kind)
    else FirstFilterClassFrom(attributes, i + 1)
  }

  /** The class a module contributes, if any. */
  function Contribution(entry: ModuleEntry): Option<FilterKind> {
    if IsSkippedModule(entry.stem) || !entry.loads then None
    else FirstFilterClassFrom(entry.attributes, 0)
  }

  /** The registry's contents: the table and its keys in insertion order. */
  datatype Registry = Registry(filters: map<string, FilterKind>, names: seq<string>)

  /** The keys in insertion order are exactly the table's keys, each once. */
  predicate Consistent(reg: Registry) {
    && (forall n | n in reg.names :: n in reg.filters)
    && (forall n | n in reg.filters :: n in reg.names)
    && (forall i, j | 0 <= i < j < |reg.names| :: reg.names[i] != reg.names[j])
  }

  /** Registering one module; a stem already present keeps its place in the order. */
  function LoadStep(reg: Registry, entry: ModuleEntry): Registry {
    match Contribution(entry)
    case None => reg
    case Some(kind) =>
      Registry(reg.filters[entry.stem := kind],
               if entry.stem in reg.filters then reg.names else reg.names + [entry.stem])
  }

  /** Registering the modules in order, starting from `reg`. */
  function LoadAll(reg: Registry, entries: seq<ModuleEntry>): Registry
    decreases |entries|
  {
    if entries == [] then reg
    else LoadStep(LoadAll(reg, entries[..|entries| - 1]), entries[|entries| - 1])
  }

  /** The registry built from an empty table. */
  function Loaded(entries: seq<ModuleEntry>): Registry {
    LoadAll(Registry(map[], []), entries)
  }

  /**
   * The quote `repr` puts around a string: `"` when the string holds a `'`
   * and no `"`, otherwise `'`.
   */
  function ReprQuote(s: string): (q: char)
    ensures q == '"' <==> '\'' in s && '"' !in s
    ensures q == '"' || q == '\''
  {
    if '\'' in s && '"' !in s then '"' else '\''
  }

  /** A lower-case hexadecimal digit. */
  function HexDigit(d: nat): char
    requires d < 16
  {
    if d < 10 then ('0' as int + d) as char else ('a' as int + d - 10) as char
  }

  /** The value of a lower-case hexadecimal digit, and 0 for any other character. */
  function HexValue(c: char): nat {
    if '0' <= c <= '9' then c as int - '0' as int
    else if 'a' <= c <= 'f' then c as int - 'a' as int + 10
    else 0
  }

  /** An ASCII control character, which `repr` writes as `\xhh` unless it has a short escape. */
  predicate IsAsciiControl(c: char) {
    c < ' ' || c as int == 0x7f
  }

  /**
   * How `repr` writes one character between quotes `q`: a back-slash before
   * `\` and `q`, the short escapes for tab, newline and carriage return,
   * `\xhh` for the other ASCII control characters, and the character itself
   * otherwise.
   */
  function ReprChar(c: char, q: char): string {
    if c == '\\' || c == q then ['\\', c]
    else if c == '\t' then "\\t"
    else if c == '\n' then "\\n"
    else if c == '\r' then "\\r"
    else if IsAsciiControl(c) then ['\\', 'x', HexDigit(c as int / 16), HexDigit(c as int % 16)]
    else [c]
  }

  function ReprBody(s: string, q: char): string
    decreases |s|
  {
    if s == [] then "" else ReprChar(s[0], q) + ReprBody(s[1..], q)
  }

  /** `repr` of a string, for the module stems the table holds. */
  function Repr(s: string): (r: string)
    ensures |r| >= 2 + |s|
    ensures r[0] == r[|r| - 1] == ReprQuote(s)
  {
    var q := ReprQuote(s);
    ReprBodyLength(s, q);
    [q] + ReprBody(s, q) + [q]
  }

  lemma {:induction false} ReprBodyLength(s: string, q: char)
    ensures |ReprBody(s, q)| >= |s|
    decreases |s|
  {
    if s != [] {
      ReprBodyLength(s[1..], q);
    }
  }

  /** Reading an escaped body back: the inverse of `ReprBody`. */
  function Unescape(t: string): string
    decreases |t|
  {
    if t == [] then ""
    else if t[0] != '\\' || |t| == 1 then [t[0]] + Unescape(t[1..])
    else if t[1] == 't' then "\t" + Unescape(t[2..])
    else if t[1] == 'n' then "\n" + Unescape(t[2..])
    else if t[1] == 'r' then "\r" + Unescape(t[2..])
    else if t[1] == 'x' && |t| >= 4 then [(16 * HexValue(t[2]) + HexValue(t[3])) as char] + Unescape(t[4..])
    else [t[1]] + Unescape(t[2..])
  }

  lemma HexRoundTrip(c: char)
    requires IsAsciiControl(c)
    ensures (16 * HexValue(HexDigit(c as int / 16)) + HexValue(HexDigit(c as int % 16))) as char == c
  {
  }

  lemma UnescapeChar(c: char, q: char, rest: string)
    requires q == '"' || q == '\''
    ensures Unescape(ReprChar(c, q) + rest) == [c] + Unescape(rest)
  {
    var t := ReprChar(c, q) + rest;
    if c == '\\' || c == q {
      assert t[2..] == rest;
    } else if c == '\t' || c == '\n' || c == '\r' {
      assert t[2..] == rest;
    } else if IsAsciiControl(c) {
      assert t[4..] == rest;
      HexRoundTrip(c);
    } else {
      assert t[1..] == rest;
    }
  }

  /** Unescaping the body of `repr` gives the string back, whichever quote was chosen. */
  lemma {:induction false} ReprBodyRoundTrip(s: string, q: char)
    requires q == '"' || q == '\''
    ensures Unescape(ReprBody(s, q)) == s
    decreases |s|
  {
    if s != [] {
      ReprBodyRoundTrip(s[1..], q);
      UnescapeChar(s[0], q, ReprBody(s[1..], q));
      assert [s[0]] + s[1..] == s;
    }
  }

  /** `repr` is injective: the body between the quotes determines the string. */
  lemma ReprInjective(s: string, t: string)
    ensures Repr(s) == Repr(t) <==> s == t
  {
    if Repr(s) == Repr(t) {
      var r := Repr(s);
      assert ReprBody(s, ReprQuote(s)) == r[1..|r| - 1] == ReprBody(t, ReprQuote(t));
      ReprBodyRoundTrip(s, ReprQuote(s));
      ReprBodyRoundTrip(t, ReprQuote(t));
    }
  }

  /** A name with no quote, no back-slash and no control character is written between `'`s as it is. */
  lemma ReprPlain(s: string)
    requires forall k | 0 <= k < |s| :: s[k] != '\'' && s[k] != '\\' && !IsAsciiControl(s[k])
    ensures Repr(s) == "'" + s + "'"
  {
    PlainBody(s, '\'');
  }

  /** Between quotes `q`, a string without `q`, back-slashes or control characters is written as it is. */
  lemma {:induction false} PlainBody(s: string, q: char)
    requires forall k | 0 <= k < |s| :: s[k] != q && s[k] != '\\' && !IsAsciiControl(s[k])
    ensures ReprBody(s, q) == s
    decreases |s|
  {
    if s != [] {
      PlainBody(s[1..], q);
      assert [s[0]] + s[1..] == s;
    }
  }

  /** A name with an apostrophe, and no `"`, back-slash or control character, is written between `"`s as it is. */
  lemma ReprApostropheName(s: string)
    requires '\'' in s
    requires forall k | 0 <= k < |s| :: s[k] != '"' && s[k] != '\\' && !IsAsciiControl(s[k])
    ensures Repr(s) == "\"" + s + "\""
  {
    PlainBody(s, '"');
  }

  /** The stem `it's` is written as `"it's"`. */
  lemma ReprApostrophe()
    ensures Repr("it's") == "\"it's\""
  {
    var s := "it's";
    assert s[2] == '\'';
    ReprApostropheName(s);
  }

  /** `repr` of each name. */
  function QuotedNames(names: seq<string>): (r: seq<string>)
    ensures |r| == |names|
    ensures forall k | 0 <= k < |names| :: r[k] == Repr(names[k])
  {
    if names == [] then [] else [Repr(names[0])] + QuotedNames(names[1..])
  }

  /** `str(list)` of names: their `repr`s between brackets, separated by `, `. */
  function NamesRepr(names: seq<string>): string {
    "[" + Join(QuotedNames(names), ", ") + "]"
  }

  /** The `ValueError` message for an unknown name without a default. */
  function NotFoundMessage(name: string, available: seq<string>): string {
    "过滤器 '" + name + "' 不存在。可用过滤器: " + NamesRepr(available)
  }

  /** The registry as a mutable object, as `FilterManager` keeps it. */
  class FilterManager {
    var filters: map<string, FilterKind>
    /** The keys of `filters` in insertion order, which is the order `list` gives them. */
    var names: seq<string>

    ghost predicate Valid()
      reads this
    {
      Consistent(Registry(filters, names))
    }

    /** `__init__`: an empty table filled by `LoadFilters`. */
    constructor(entries: seq<ModuleEntry>)
      ensures Registry(filters, names) == Loaded(entries)
      ensures Valid()
    {
      filters := map[];
      names := [];
      new;
      LoadFilters(entries);
    }

    /** `_load_filters`: the table and its key order stay in step. */
    method LoadFilters(entries: seq<ModuleEntry>)
      requires Valid()
      modifies this
      ensures Registry(filters, names) == LoadAll(old(Registry(filters, names)), entries)
      ensures Valid()
    {
      ghost var start := Registry(filters, names);
      for i := 0 to |entries|
        invariant Registry(filters, names) == LoadAll(start, entries[..i])
      {
        assert entries[..i + 1][..i] == entries[..i];
        var entry := entries[i];
        if entry.stem == "__init__" || entry.stem == "base_filter" {
          continue;
        }
        if !entry.loads {
          // the import raised: the module is reported and skipped
          continue;
        }
        var attributes := entry.attributes;
        for j := 0 to |attributes|
          invariant FirstFilterClassFrom(attributes, j) == FirstFilterClassFrom(attributes, 0)
        {
          if attributes[j].FilterClassAttribute? {
            if entry.stem !in filters {
              names := names + [entry.stem];
            }
            filters := filters[entry.stem := attributes[j].kind];
            break;
          }
        }
      }
      assert entries[..|entries|] == entries;
      LoadAllConsistent(start, entries);
    }

    /** `get_filter`: a fresh instance of the named class, or of `default`. */
    method GetFilter(filterName: string := DefaultName) returns (r: Result<ContentFilter, string>)
      requires Valid()
      ensures filterName in filters ==> r == Ok(Instantiate(filters[filterName]))
      ensures filterName !in filters && DefaultName in filters ==> r == Ok(Instantiate(filters[DefaultName]))
      ensures r.Err? <==> filterName !in filters && DefaultName !in filters
      ensures r.Err? ==> r.error == NotFoundMessage(filterName, names)
    {
      var name := filterName;
      if name !in filters {
        var available := names;
        if DefaultName in filters {
          name := DefaultName;
        } else {
          return Err(NotFoundMessage(name, available));
        }
      }
      return Ok(Instantiate(filters[name]));
    }

    /** `list_filters`: the registered names, each once, in insertion order. */
    method ListFilters() returns (r: seq<string>)
      requires Valid()
      ensures forall n :: n in r <==> n in filters
      ensures forall i, j | 0 <= i < j < |r| :: r[i] != r[j]
      ensures |r| == |filters|
      ensures r == names
    {
      r := names;
      DistinctKeys(Registry(filters, names));
    }
  }

  // ---------------------------------------------------------------------------
  // Properties of loading

  /** A distinct listing of the keys has as many elements as the table. */
  lemma DistinctKeys(reg: Registry)
    requires Consistent(reg)
    ensures |reg.names| == |reg.filters|
  {
    var s := set n | n in reg.names;
    assert s == reg.filters.Keys;
    DistinctCard(reg.names);
  }

  lemma {:induction false} DistinctCard(names: seq<string>)
    requires forall i, j | 0 <= i < j < |names| :: names[i] != names[j]
    ensures |set n | n in names| == |names|
    decreases |names|
  {
    if names != [] {
      var init := names[..|names| - 1];
      var last := names[|names| - 1];
      DistinctCard(init);
      assert (set n | n in names) == (set n | n in init) + {last};
      assert last !in init;
    }
  }

  /** Loading keeps the table and its listing in step. */
  lemma LoadStepConsistent(reg: Registry, entry: ModuleEntry)
    requires Consistent(reg)
    ensures Consistent(LoadStep(reg, entry))
  {
  }

  lemma {:induction false} LoadAllConsistent(reg: Registry, entries: seq<ModuleEntry>)
    requires Consistent(reg)
    ensures Consistent(LoadAll(reg, entries))
    decreases |entries|
  {
    if entries != [] {
      LoadAllConsistent(reg, entries[..|entries| - 1]);
      LoadStepConsistent(LoadAll(reg, entries[..|entries| - 1]), entries[|entries| - 1]);
    }
  }

  lemma LoadedConsistent(entries: seq<ModuleEntry>)
    ensures Consistent(Loaded(entries))
  {
    LoadAllConsistent(Registry(map[], []), entries);
  }

  /** A name is registered exactly when some module with that stem contributes a class. */
  lemma {:induction false} LoadedNames(entries: seq<ModuleEntry>, name: string)
    ensures name in Loaded(entries).filters <==>
              exists i | 0 <= i < |entries| :: entries[i].stem == name && Contribution(entries[i]).Some?
    decreases |entries|
  {
    if entries != [] {
      var init := entries[..|entries| - 1];
      LoadedNames(init, name);
      if exists i | 0 <= i < |init| :: init[i].stem == name && Contribution(init[i]).Some? {
        var i :| 0 <= i < |init| && init[i].stem == name && Contribution(init[i]).Some?;
        assert entries[i] == init[i];
      }
      if exists i | 0 <= i < |entries| :: entries[i].stem == name && Contribution(entries[i]).Some? {
        var i :| 0 <= i < |entries| && entries[i].stem == name && Contribution(entries[i]).Some?;
        if i < |init| {
          assert init[i] == entries[i];
        }
      }
    }
  }

  /**
   * Insertion order: the names registered by a prefix of the modules lead
   * the final listing, in the same order; registering a name again does not
   * move it.
   */
  lemma {:induction false} LoadedOrder(entries: seq<ModuleEntry>, k: nat)
    requires k <= |entries|
    ensures Loaded(entries[..k]).names <= Loaded(entries).names
    decreases |entries|
  {
    if k < |entries| {
      var init := entries[..|entries| - 1];
      assert init[..k] == entries[..k];
      LoadedOrder(init, k);
    } else {
      assert entries[..k] == entries;
    }
  }

  /** The class registered under a name is the one of the last module with that stem that contributes one. */
  lemma {:induction false} LoadedClass(entries: seq<ModuleEntry>, i: nat)
    requires i < |entries| && Contribution(entries[i]).Some?
    requires forall j | i < j < |entries| :: entries[j].stem == entries[i].stem ==> Contribution(entries[j]).None?
    ensures entries[i].stem in Loaded(entries).filters
    ensures Loaded(entries).filters[entries[i].stem] == Contribution(entries[i]).value
    decreases |entries|
  {
    var init := entries[..|entries| - 1];
    if i < |init| {
      LoadedClass(init, i);
    }
  }

  /** The package's own modules are never registered. */
  lemma SkippedNeverRegistered(entries: seq<ModuleEntry>)
    ensures "__init__" !in Loaded(entries).filters
    ensures "base_filter" !in Loaded(entries).filters
  {
    LoadedNames(entries, "__init__");
    LoadedNames(entries, "base_filter");
  }

  /** A module's first filter class wins, whatever follows it. */
  lemma FirstClassWins(stem: string, before: seq<Attribute>, kind: FilterKind, after: seq<Attribute>)
    requires !IsSkippedModule(stem)
    requires forall j | 0 <= j < |before| :: !before[j].FilterClassAttribute?
    ensures Contribution(ModuleEntry(stem, true, before + [FilterClassAttribute(kind)] + after)) == Some(kind)
  {
    var attributes := before + [FilterClassAttribute(kind)] + after;
    var r := FirstFilterClassFrom(attributes, 0);
    assert attributes[|before|] == FilterClassAttribute(kind);
    FirstFilterClassSkips(attributes, 0, |before|);
  }

  lemma {:induction false} FirstFilterClassSkips(attributes: seq<Attribute>, i: nat, k: nat)
    requires i <= k < |attributes| && attributes[k].FilterClassAttribute?
    requires forall j | i <= j < k :: !attributes[j].FilterClassAttribute?
    ensures FirstFilterClassFrom(attributes, i) == Some(attributes[k].kind)
    decreases k - i
  {
    if i < k {
      FirstFilterClassSkips(attributes, i + 1, k);
    }
  }

  // ---------------------------------------------------------------------------
  // The filters directory as it ships

  /** `__init__.py`, `base_filter.py` and `djg.py`, whose attributes include the imported base class. */
  const ShippedModules: seq<ModuleEntry> := [
    ModuleEntry("__init__", true, [OtherAttribute]),
    ModuleEntry("base_filter", true, [OtherAttribute, BaseClassAttribute]),
    ModuleEntry("djg", true, [BaseClassAttribute, FilterClassAttribute(DjgContentFilter), OtherAttribute])
  ]

  /**
   * The shipped directory registers `djg` alone. No `default` module ships,
   * so `get_filter()` without a name, or with an unknown one, fails.
   */
  lemma ShippedRegistry()
    ensures Loaded(ShippedModules) == Registry(map["djg" := DjgContentFilter], ["djg"])
    ensures DefaultName !in Loaded(ShippedModules).filters
  {
    var empty := Registry(map[], []);
    assert Contribution(ShippedModules[0]).None? && Contribution(ShippedModules[1]).None?;
    assert FirstFilterClassFrom(ShippedModules[2].attributes, 0) == Some(DjgContentFilter);
    assert LoadAll(empty, ShippedModules[..1]) == empty by {
      assert ShippedModules[..1][..0] == [];
    }
    assert LoadAll(empty, ShippedModules[..2]) == empty by {
      assert ShippedModules[..2][..1] == ShippedModules[..1];
    }
    assert ShippedModules[..2] == ShippedModules[..3][..2];
    assert ShippedModules[..3] == ShippedModules;
    assert Loaded(ShippedModules) == LoadStep(empty, ShippedModules[2]);
  }

  /** The failure message names every available filter. */
  lemma NotFoundMessageListsNames(name: string, available: seq<string>, k: nat)
    requires k < |available|
    ensures Contains(NotFoundMessage(name, available), Repr(available[k]))
  {
    var quoted := QuotedNames(available);
    assert OccursAt(quoted[k], quoted[k], 0);
    ContainsJoinElement(quoted, ", ", k, quoted[k]);
    ContainsInRight("[", Join(quoted, ", "), quoted[k]);
    ContainsInLeft("[" + Join(quoted, ", "), "]", quoted[k]);
    ContainsInRight("过滤器 '" + name + "' 不存在。可用过滤器: ", NamesRepr(available), quoted[k]);
    assert NotFoundMessage(name, available) == "过滤器 '" + name + "' 不存在。可用过滤器: " + NamesRepr(available);
  }
}
