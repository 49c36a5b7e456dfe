/**
 * The contract every pluggable content filter follows.
 *
 * A filter carries a `name`, which is the name of its concrete class, and a
 * `description`, which is a generic text unless the concrete class replaces
 * it after the base constructor has run. `GetInfo` reports both together
 * with the class name, and `ToString` renders them as `name: description`.
 * Every concrete filter supplies `extract_main_content`; the model
 * dispatches on the kind of filter.
 */
module BaseFilter {
  import opened TextUtil
  import DjgFilter

  /** The description the base constructor assigns. */
  const BaseDescription: string := "基础内容过滤器"

  /**
   * The concrete filter classes. `DjgContentFilter` ships with the program;
   * `PluginFilter` stands for a class some other plug-in module defines,
   * with its class name and, when its constructor replaces it, its own
   * description.
   */
  datatype FilterKind =
    | DjgContentFilter
    | PluginFilter(className: string, ownDescription: Option<string>)

  /** `self.__class__.__name__`. */
  function ClassName(kind: FilterKind): string {
    match kind
    case DjgContentFilter => "DJGContentFilter"
    case PluginFilter(c, _) => c
  }

  /** The description after construction: the subclass's own, if it sets one. */
  function DescriptionOf(kind: FilterKind): string {
    match kind
    case DjgContentFilter => DjgFilter.Description
    case PluginFilter(_, d) => if d.Some? then d.value else BaseDescription
  }

  /** A constructed filter: its class and its two fields. */
  datatype ContentFilter = ContentFilter(kind: FilterKind, name: string, description: string)

  /** Constructing a filter of class `kind`. */
  function Instantiate(kind: FilterKind): (f: ContentFilter)
    ensures f.kind == kind
    ensures f.name == ClassName(kind)
    ensures kind.PluginFilter? && kind.ownDescription.None? ==> f.description == BaseDescription
  {
    ContentFilter(kind, ClassName(kind), DescriptionOf(kind))
  }

  /** `get_info`. */
  function GetInfo(f: ContentFilter): (info: map<string, string>)
    ensures info.Keys == {"name", "description", "class"}
    ensures info["name"] == f.name && info["description"] == f.description
    ensures info["class"] == ClassName(f.kind)
  {
    map["name" := f.name, "description" := f.description, "class" := ClassName(f.kind)]
  }

  /** `__str__`. */
  function ToString(f: ContentFilter): (s: string)
    ensures StartsWith(s, f.name)
    ensures |s| == |f.name| + 2 + |f.description|
    ensures s[|f.name|..|f.name| + 2] == ": " && s[|f.name| + 2..] == f.description
  {
    f.name + ": " + f.description
  }

  /**
   * `extract_main_content`, dispatched on the class. A plug-in's own code is
   * not part of this model: its extraction is the parameter `plugin`.
   */
  function Extract(f: ContentFilter, text: string, plugin: (FilterKind, string) -> string): (r: string)
    ensures f.kind == DjgContentFilter && IsBlank(text) ==> r == ""
    ensures f.kind == DjgContentFilter ==> r == DjgFilter.DjgContent(text)
    ensures f.kind.PluginFilter? ==> r == plugin(f.kind, text)
  {
    match f.kind
    case DjgContentFilter => DjgFilter.DjgContent(text)
    case PluginFilter(_, _) => plugin(f.kind, text)
  }

  /** A freshly constructed filter reports its class name both as `name` and as `class`. */
  lemma InfoOfInstance(kind: FilterKind)
    ensures GetInfo(Instantiate(kind))["name"] == GetInfo(Instantiate(kind))["class"] == ClassName(kind)
    ensures GetInfo(Instantiate(kind))["description"] == DescriptionOf(kind)
  {
  }

  /** The DJG filter replaces the base description with its own. */
  lemma DjgDescription()
    ensures Instantiate(DjgContentFilter).description != BaseDescription
    ensures ToString(Instantiate(DjgContentFilter)) == "DJGContentFilter: " + DjgFilter.Description
  {
    assert Instantiate(DjgContentFilter).description[0] != BaseDescription[0];
  }

  /** The rendering is determined by, and determines, the two fields. */
  lemma ToStringInjective(f: ContentFilter, g: ContentFilter)
    requires f.name == g.name
    ensures ToString(f) == ToString(g) <==> f.description == g.description
  {
    if ToString(f) == ToString(g) {
      assert f.description == ToString(f)[|f.name| + 2..];
    }
  }
}
