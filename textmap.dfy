/**
 * FlowFact::mapString (src/FlowFact.php): the label lookup every converted
 * field, category and heating type goes through.
 */
module TextMapping {
  import opened Php

  /**
   * The `$default` argument: absent (`null`), a plain string, or a
   * callable. A string naming a PHP function is callable in PHP; such a
   * string is written here as `Callable`.
   */
  datatype Default = NoDefault | Fixed(text: string) | Callable(f: string -> string)

  /**
   * What mapString consults besides its arguments: the instance's texts map
   * and the process-wide `FlowFact::$DEFAULT_TEXT_MAPPER`.
   */
  datatype Labels = Labels(texts: map<string, string>, fallback: Option<string -> string>)

  /** A texts-map entry that counts: present and truthy. */
  predicate Mapped(labels: Labels, s: string) {
    s in labels.texts && Truthy(labels.texts[s])
  }

  /**
   * `mapString($str, $default)`: a truthy texts-map entry, else a callable
   * default applied to the string, else a truthy default, else the
   * default text mapper applied to the string, else the string itself.
   */
  function MapString(labels: Labels, s: string, default: Default): string {
    if Mapped(labels, s) then labels.texts[s]
    else if default.Callable? then default.f(s)
    else if default.Fixed? && Truthy(default.text) then default.text
    else if labels.fallback.Some? then labels.fallback.value(s)
    else s
  }

  /** `mapString($k)` as convertData and the category helpers call it. */
  function Label(labels: Labels, s: string): string {
    MapString(labels, s, NoDefault)
  }

  /** A truthy texts-map entry beats every kind of default. */
  lemma MappedEntryWins(labels: Labels, s: string, d: Default)
    requires Mapped(labels, s)
    ensures MapString(labels, s, d) == labels.texts[s]
  {
  }

  /** An entry mapping to "" or "0" behaves exactly as if the string were not in the map. */
  lemma FalsyEntryIsAbsent(texts: map<string, string>, fallback: Option<string -> string>, s: string, t: string, d: Default)
    requires !Truthy(t)
    ensures MapString(Labels(texts[s := t], fallback), s, d) == MapString(Labels(texts - {s}, fallback), s, d)
  {
  }

  /** Without a usable entry, a callable default decides, whatever the default text mapper is. */
  lemma CallableDefaultBeforeMapper(labels: Labels, s: string, f: string -> string, fallback: Option<string -> string>)
    requires !Mapped(labels, s)
    ensures MapString(labels, s, Callable(f)) == f(s)
    ensures MapString(Labels(labels.texts, fallback), s, Callable(f)) == f(s)
  {
  }

  /** A falsy plain default counts as no default at all. */
  lemma FalsyDefaultIsNoDefault(labels: Labels, s: string, t: string)
    requires !Truthy(t)
    ensures MapString(labels, s, Fixed(t)) == MapString(labels, s, NoDefault)
  {
  }

  /** With nothing configured, a string maps to itself. */
  lemma UnconfiguredIsIdentity(texts: map<string, string>, s: string)
    requires !Mapped(Labels(texts, None), s)
    ensures Label(Labels(texts, None), s) == s
  {
  }
}
