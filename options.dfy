/** The translation data the translator is given: `DataOptions` (the main
    table and the optional list of context overlays) and `ContextOptions`
    (one overlay: its required context entries and its own table).
    Both classes only declare properties with default initialisers, so they
    are values here. */
module Options {
  import opened Common

  /** One element of a `[low, high, text]` rule triple, which the source
      holds as an `object`: a boxed `int`, a string, `null`, or anything else. */
  datatype Element = IntE(n: Int32) | StrE(s: string) | NullE | OtherE

  /** A table value, which the source holds as an `object` and tells apart
      by runtime type tests:
      - `Str`: a `string`;
      - `Rules`: a `List<List<object>>` of rule triples, in list order;
      - `Bag`: a `Dictionary<string, object>` handed to the extension;
      - `Other`: a value of any other type. */
  datatype Value =
    | Str(s: string)
    | Rules(triples: seq<seq<Element>>)
    | Bag(entries: map<string, Value>)
    | Other

  /** A table from source text to translation value. */
  type Table = map<string, Value>

  /** A context overlay: `Matches` lists the context entries it requires,
      `Values` is the table used when they all hold. */
  datatype ContextOptions = ContextOptions(Matches: map<string, string>, Values: Table)

  /** Translation data: the main table and the optional overlay list, where
      `None` (the C# `null`) is distinct from an empty list. */
  datatype DataOptions = DataOptions(Values: Table, Contexts: Option<seq<ContextOptions>>)

  /** `new ContextOptions()`: both dictionaries start empty. */
  const NewContextOptions: ContextOptions := ContextOptions(map[], map[])

  /** `new DataOptions()`: an empty main table and no overlay list. */
  const NewDataOptions: DataOptions := DataOptions(map[], None)

  /** The overlays of `d` in list order, with a `null` list read as no overlays. */
  function Overlays(d: DataOptions): seq<ContextOptions>
  {
    if d.Contexts.Some? then d.Contexts.value else []
  }
}
