/** Inventory components. */
module Components {
  import opened Text
  import opened JsonValue

  datatype Component = Component(
    name: string,
    version: string,
    vendor: string,
    category: string,
    path: string,
    extra: map<string, Json>)
  {
    /** `name.strip().lower()`, the identity most of the program matches on. */
    function Key(): string {
      Normal(name)
    }

    /** `str(extra.get(field, ""))`. */
    function ExtraText(field: string): string {
      Get(extra, field, Str("")).Show()
    }

    /** The package identifier the component brings, empty when it brings none. */
    function Purl(): string {
      Strip(ExtraText("purl"))
    }
  }

  /** The components called `key`, in order. */
  function Named(components: seq<Component>, key: string): (r: seq<Component>)
    ensures forall c :: c in r <==> c in components && c.Key() == key
  {
    if components == [] then []
    else
      var last := components[|components| - 1];
      Named(components[..|components| - 1], key) + if last.Key() == key then [last] else []
  }

  /** The names in use. */
  function Keys(components: seq<Component>): set<string> {
    set c | c in components :: c.Key()
  }

  lemma NamedNext(components: seq<Component>, next: Component, key: string)
    ensures Named(components + [next], key) == Named(components, key) + if next.Key() == key then [next] else []
  {
    assert (components + [next])[..|components|] == components;
  }

  /** Components with pairwise different names are each alone under their name. */
  lemma {:induction false} NamedAlone(components: seq<Component>, i: nat)
    requires i < |components|
    requires forall j :: 0 <= j < |components| && j != i ==> components[j].Key() != components[i].Key()
    ensures Named(components, components[i].Key()) == [components[i]]
  {
    var n := |components| - 1;
    if i < n {
      NamedAlone(components[..n], i);
    } else {
      assert Named(components[..n], components[i].Key()) == [] by {
        NamedNone(components[..n], components[i].Key());
      }
    }
  }

  lemma {:induction false} NamedNone(components: seq<Component>, key: string)
    requires forall c :: c in components ==> c.Key() != key
    ensures Named(components, key) == []
  {
    if components != [] {
      assert components[|components| - 1] in components;
      NamedNone(components[..|components| - 1], key);
    }
  }

  lemma KeysListed(components: seq<Component>, names: seq<string>)
    requires |components| == |names| && forall i :: 0 <= i < |names| ==> components[i].Key() == names[i]
    ensures forall key :: key in Keys(components) <==> key in names
  {
    forall key ensures key in Keys(components) <==> key in names {
      if key in names {
        var i :| 0 <= i < |names| && names[i] == key;
        assert components[i] in components;
      }
      if key in Keys(components) {
        var c :| c in components && c.Key() == key;
        var i :| 0 <= i < |components| && components[i] == c;
        assert names[i] in names;
      }
    }
  }
}
