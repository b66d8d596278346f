/**
 * multi-org-comparator/src/recentMetadata.ts: the two package.xml builders.
 * `generatePackageXmlForComponents` groups named components by type, types
 * in order of first occurrence and members in input order;
 * `generatePackageXmlForAllMetadata` writes one wildcard block per type.
 */
module RecentMetadata {
  import opened Strings
  import opened Seqs

  /** A component; the source's field `type` is `metadataType` here. */
  datatype MetadataComponent = MetadataComponent(metadataType: string, name: string, lastModifiedDate: string)

  const Header: string := "<?xml version=\"1.0\" encoding=\"UTF-8\"?>\n<Package xmlns=\"http://soap.sforce.com/2006/04/metadata\">\n"
  const Footer: string := "\n  <version>59.0</version>\n</Package>"

  function MemberLine(member: string): string
  {
    "    <members>" + member + "</members>"
  }

  /** One `<types>` block: its member lines, then its name line. */
  function TypeBlock(t: string, members: seq<string>): string
  {
    "  <types>\n" + Join(MapSeq(members, MemberLine), "\n") + "\n    <name>" + t + "</name>\n  </types>"
  }

  /** The document for a list of (type, members) groups. */
  function RenderPackage(groups: seq<(string, seq<string>)>): (xml: string)
    ensures StartsWith(xml, Header) && EndsWith(xml, Footer)
  {
    var body := Join(seq(|groups|, i requires 0 <= i < |groups| => TypeBlock(groups[i].0, groups[i].1)), "\n");
    assert (Header + body + Footer)[..|Header|] == Header;
    assert (Header + body + Footer)[|Header + body + Footer| - |Footer|..] == Footer;
    Header + body + Footer
  }

  function TypeOf(c: MetadataComponent): string
  {
    c.metadataType
  }

  function NameOf(c: MetadataComponent): string
  {
    c.name
  }

  /** The keys of `typeMap`: each type once, in order of first occurrence. */
  function TypesInOrder(cs: seq<MetadataComponent>): seq<string>
  {
    Dedup(MapSeq(cs, TypeOf))
  }

  /** The names of the components of type `t`, in input order, repeats kept. */
  function MembersOf(cs: seq<MetadataComponent>, t: string): seq<string>
  {
    MapSeq(Filter(cs, (c: MetadataComponent) => c.metadataType == t), NameOf)
  }

  /** The entries of `typeMap` after the grouping loop. */
  function GroupByType(cs: seq<MetadataComponent>): seq<(string, seq<string>)>
  {
    var ts := TypesInOrder(cs);
    seq(|ts|, i requires 0 <= i < |ts| => (ts[i], MembersOf(cs, ts[i])))
  }

  /** `typeMap` after the grouping loop has seen `cs`: each type seen, with its members. */
  function TypeMapOf(cs: seq<MetadataComponent>): map<string, seq<string>>
  {
    map t | t in TypesInOrder(cs) :: MembersOf(cs, t)
  }

  /**
   * `generatePackageXmlForComponents`: the grouping loop fills `typeMap`
   * (its key order kept in `order`), then the entries are rendered.
   */
  method GeneratePackageXmlForComponents(components: seq<MetadataComponent>) returns (xml: string)
    ensures xml == RenderPackage(GroupByType(components))
  {
    var order: seq<string> := [];
    var typeMap: map<string, seq<string>> := map[];
    for i := 0 to |components|
      invariant order == TypesInOrder(components[..i])
      invariant typeMap == TypeMapOf(components[..i])
    {
      var component := components[i];
      GroupLoopStep(components, i);
      if component.metadataType !in typeMap {
        typeMap := typeMap[component.metadataType := []];
        order := order + [component.metadataType];
      }
      typeMap := typeMap[component.metadataType := typeMap[component.metadataType] + [component.name]];
    }
    assert components[..|components|] == components;
    EntriesAreGroups(components);
    var groups := Entries(order, typeMap);
    xml := RenderPackage(groups);
  }

  /** `Array.from(typeMap.entries())`, with `order` the insertion order of the keys. */
  function Entries(order: seq<string>, typeMap: map<string, seq<string>>): seq<(string, seq<string>)>
    requires forall t :: t in order ==> t in typeMap
  {
    seq(|order|, k requires 0 <= k < |order| => (order[k], typeMap[order[k]]))
  }

  /** After the loop, the entries of `typeMap` are the groups of all components. */
  lemma EntriesAreGroups(cs: seq<MetadataComponent>)
    ensures forall t :: t in TypesInOrder(cs) ==> t in TypeMapOf(cs)
    ensures Entries(TypesInOrder(cs), TypeMapOf(cs)) == GroupByType(cs)
  {
  }

  /** One turn of the grouping loop: a new type is added last, and the component's name is appended to its type. */
  lemma GroupLoopStep(cs: seq<MetadataComponent>, i: nat)
    requires i < |cs|
    ensures var t, m := cs[i].metadataType, TypeMapOf(cs[..i]);
      && TypesInOrder(cs[..i + 1]) == (if t in m then TypesInOrder(cs[..i]) else TypesInOrder(cs[..i]) + [t])
      && TypeMapOf(cs[..i + 1]) == m[t := (if t in m then m[t] else []) + [cs[i].name]]
  {
    var t := cs[i].metadataType;
    GroupStep(cs, i);
    if t !in TypesInOrder(cs[..i]) {
      AbsentTypeHasNoMembers(cs[..i], t);
    }
    var m, m' := TypeMapOf(cs[..i]), TypeMapOf(cs[..i + 1]);
    var want := m[t := (if t in m then m[t] else []) + [cs[i].name]];
    assert forall u :: u in m' <==> u in want;
    assert forall u :: u in m' ==> m'[u] == want[u];
  }

  /** What one more component does to the types and the member lists. */
  lemma GroupStep(cs: seq<MetadataComponent>, i: nat)
    requires i < |cs|
    ensures TypesInOrder(cs[..i + 1]) ==
      if cs[i].metadataType in TypesInOrder(cs[..i]) then TypesInOrder(cs[..i])
      else TypesInOrder(cs[..i]) + [cs[i].metadataType]
    ensures forall t ::
      MembersOf(cs[..i + 1], t) == MembersOf(cs[..i], t) + (if cs[i].metadataType == t then [cs[i].name] else [])
  {
    var p, q := cs[..i + 1], cs[..i];
    assert p[..i] == q;
    assert MapSeq(p, TypeOf)[..i] == MapSeq(q, TypeOf);
    forall t ensures MembersOf(p, t) == MembersOf(q, t) + (if cs[i].metadataType == t then [cs[i].name] else []) {
      var f := Filter(q, (c: MetadataComponent) => c.metadataType == t);
      assert Filter(p, (c: MetadataComponent) => c.metadataType == t) == f + (if cs[i].metadataType == t then [cs[i]] else []);
    }
  }

  /** A type that no component has has no members. */
  lemma AbsentTypeHasNoMembers(cs: seq<MetadataComponent>, t: string)
    requires t !in TypesInOrder(cs)
    ensures MembersOf(cs, t) == []
  {
    DedupCorrect(MapSeq(cs, TypeOf));
    NoneOfType(cs, (c: MetadataComponent) => c.metadataType == t);
  }

  /** The types are distinct, cover every component's type, and keep first-occurrence order. */
  lemma GroupTypes(cs: seq<MetadataComponent>)
    ensures var ts := KeysOf(GroupByType(cs));
      && Distinct(ts)
      && (forall t :: t in ts <==> exists c :: c in cs && c.metadataType == t)
      && (forall t :: t in ts ==> t in MapSeq(cs, TypeOf))
      && (forall i, j :: 0 <= i < j < |ts| ==> FirstIndex(MapSeq(cs, TypeOf), ts[i]) < FirstIndex(MapSeq(cs, TypeOf), ts[j]))
  {
    var ts := KeysOf(GroupByType(cs));
    assert ts == TypesInOrder(cs);
    DedupCorrect(MapSeq(cs, TypeOf));
    forall t ensures t in ts <==> exists c :: c in cs && c.metadataType == t {
      if t in ts {
        var k :| 0 <= k < |cs| && MapSeq(cs, TypeOf)[k] == t;
        assert cs[k] in cs;
      }
      if exists c :: c in cs && c.metadataType == t {
        var c :| c in cs && c.metadataType == t;
        var k :| 0 <= k < |cs| && cs[k] == c;
        assert MapSeq(cs, TypeOf)[k] == t;
      }
    }
  }

  function TotalMembers(groups: seq<(string, seq<string>)>): nat
  {
    if |groups| == 0 then 0 else TotalMembers(groups[..|groups| - 1]) + |groups[|groups| - 1].1|
  }

  function CountOfTypes(cs: seq<MetadataComponent>, ts: seq<string>): nat
  {
    if |ts| == 0 then 0 else CountOfTypes(cs, ts[..|ts| - 1]) + |MembersOf(cs, ts[|ts| - 1])|
  }

  /** Components of distinct types `ts` number as many as the components whose type is in `ts`. */
  lemma {:induction false} CountOfTypesFilter(cs: seq<MetadataComponent>, ts: seq<string>)
    requires Distinct(ts)
    ensures CountOfTypes(cs, ts) == |Filter(cs, (c: MetadataComponent) => c.metadataType in ts)|
  {
    if |ts| > 0 {
      var init, t := ts[..|ts| - 1], ts[|ts| - 1];
      CountOfTypesFilter(cs, init);
      assert t !in init;
      assert ts == init + [t];
      DisjointFilterCount(cs, ts, init, t);
      assert |MembersOf(cs, t)| == |Filter(cs, (c: MetadataComponent) => c.metadataType == t)|;
    } else {
      NoneOfType(cs, (c: MetadataComponent) => c.metadataType in ts);
    }
  }

  lemma {:induction false} DisjointFilterCount(cs: seq<MetadataComponent>, ts: seq<string>, init: seq<string>, t: string)
    requires ts == init + [t] && t !in init
    ensures |Filter(cs, (c: MetadataComponent) => c.metadataType in ts)|
         == |Filter(cs, (c: MetadataComponent) => c.metadataType in init)| + |Filter(cs, (c: MetadataComponent) => c.metadataType == t)|
  {
    if |cs| > 0 {
      DisjointFilterCount(cs[..|cs| - 1], ts, init, t);
      var c := cs[|cs| - 1];
      assert c.metadataType in ts <==> c.metadataType in init || c.metadataType == t;
    }
  }

  /** Every component becomes exactly one `<members>` line. */
  lemma TotalMembersIsComponentCount(cs: seq<MetadataComponent>)
    ensures TotalMembers(GroupByType(cs)) == |cs|
  {
    var ts := TypesInOrder(cs);
    DedupCorrect(MapSeq(cs, TypeOf));
    TotalIsCount(cs, ts);
    CountOfTypesFilter(cs, ts);
    forall c | c in cs ensures c.metadataType in ts {
      var k :| 0 <= k < |cs| && cs[k] == c;
      assert MapSeq(cs, TypeOf)[k] == c.metadataType;
    }
    FilterAll(cs, (c: MetadataComponent) => c.metadataType in ts);
  }

  lemma {:induction false} TotalIsCount(cs: seq<MetadataComponent>, ts: seq<string>)
    ensures TotalMembers(seq(|ts|, i requires 0 <= i < |ts| => (ts[i], MembersOf(cs, ts[i])))) == CountOfTypes(cs, ts)
  {
    if |ts| > 0 {
      var init := ts[..|ts| - 1];
      TotalIsCount(cs, init);
      var g := seq(|ts|, i requires 0 <= i < |ts| => (ts[i], MembersOf(cs, ts[i])));
      assert g[..|g| - 1] == seq(|init|, i requires 0 <= i < |init| => (init[i], MembersOf(cs, init[i])));
    }
  }

  /** `generatePackageXmlForAllMetadata`: one wildcard block per listed type. */
  function GeneratePackageXmlForAllMetadata(types: seq<string>): (xml: string)
    ensures StartsWith(xml, Header) && EndsWith(xml, Footer)
  {
    var body := Join(MapSeq(types, StarBlock), "\n");
    assert (Header + body + Footer)[..|Header|] == Header;
    assert (Header + body + Footer)[|Header + body + Footer| - |Footer|..] == Footer;
    Header + body + Footer
  }

  /** The wildcard block of one type. */
  function StarBlock(t: string): string
  {
    "  <types>\n" + "    <members>*</members>" + "\n    <name>" + t + "</name>\n  </types>"
  }

  function StarGroups(types: seq<string>): seq<(string, seq<string>)>
  {
    seq(|types|, i requires 0 <= i < |types| => (types[i], ["*"]))
  }

  /** The wildcard document is the grouped document with one `*` member per type, in input order, repeats kept. */
  lemma AllMetadataIsStarGroups(types: seq<string>)
    ensures GeneratePackageXmlForAllMetadata(types) == RenderPackage(StarGroups(types))
  {
    var g := StarGroups(types);
    assert MemberLine("*") == "    <members>*</members>";
    forall i | 0 <= i < |types|
      ensures TypeBlock(g[i].0, g[i].1) == StarBlock(types[i])
    {
      assert MapSeq(["*"], MemberLine) == [MemberLine("*")];
    }
    assert seq(|g|, i requires 0 <= i < |g| => TypeBlock(g[i].0, g[i].1)) == MapSeq(types, StarBlock);
  }

  /** One `*` component per distinct type gives the same document as the wildcard builder. */
  lemma StarComponentsMatchAllMetadata(types: seq<string>, date: string)
    requires Distinct(types)
    ensures GroupByType(MapSeq(types, t => MetadataComponent(t, "*", date))) == StarGroups(types)
    ensures RenderPackage(GroupByType(MapSeq(types, t => MetadataComponent(t, "*", date))))
         == GeneratePackageXmlForAllMetadata(types)
  {
    var cs := MapSeq(types, t => MetadataComponent(t, "*", date));
    assert MapSeq(cs, TypeOf) == types;
    DedupOfDistinct(types);
    forall i | 0 <= i < |types| ensures MembersOf(cs, types[i]) == ["*"] {
      OneOfType(types, date, i);
    }
    AllMetadataIsStarGroups(types);
  }

  lemma OneOfType(types: seq<string>, date: string, i: nat)
    requires Distinct(types) && i < |types|
    ensures MembersOf(MapSeq(types, t => MetadataComponent(t, "*", date)), types[i]) == ["*"]
  {
    var cs := MapSeq(types, t => MetadataComponent(t, "*", date));
    var p := (c: MetadataComponent) => c.metadataType == types[i];
    assert Filter(cs[..i], p) == [] by { NoneOfType(cs[..i], p); }
    assert Filter(cs[i + 1..], p) == [] by { NoneOfType(cs[i + 1..], p); }
    assert Filter([cs[i]], p) == [cs[i]] by { assert [cs[i]][..0] == []; }
    assert Filter(cs, p) == [cs[i]] by {
      assert cs == cs[..i] + [cs[i]] + cs[i + 1..];
      FilterConcat(cs[..i] + [cs[i]], cs[i + 1..], p);
      FilterConcat(cs[..i], [cs[i]], p);
    }
  }

  lemma {:induction false} NoneOfType(cs: seq<MetadataComponent>, p: MetadataComponent -> bool)
    requires forall j :: 0 <= j < |cs| ==> !p(cs[j])
    ensures Filter(cs, p) == []
  {
    if |cs| > 0 {
      NoneOfType(cs[..|cs| - 1], p);
    }
  }
}
