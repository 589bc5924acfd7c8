/**
 * The GeoPackage half of the portable archive (`tabs/archive_project_tab.py`):
 * the layer export loop of `_on_archive_project`, which names each vector
 * layer, picks the writer mode and records the new sources; and
 * `_update_project_sources_comprehensive`, which points the project's
 * elements at those sources and then scrubs the remaining `postgres`
 * provider names from the serialised text.
 *
 * The project is an abstract element list: every element the source finds
 * with `findall(".//tag")` appears once, in document order, with its
 * attributes and the text of the first child of each tag (`find`/`findtext`).
 */
module ArchiveSources {
  import opened Text
  import ArchiveProject

  // ------------------------------------------------------------------
  // Layer export

  /** One entry of `QgsProject.mapLayers()`, keyed by its id. */
  datatype MapLayer = MapLayer(id: string, name: string, isVector: bool, provider: string, source: string)

  /** `actionOnExistingFile` of the GeoPackage writer options. */
  datatype WriteMode = CreateOrOverwriteFile | CreateOrOverwriteLayer

  /** `layer.name().replace(' ', '_').replace('/', '_')`. */
  function SanitizeLayerName(name: string): string {
    Replace(Replace(name, " ", "_"), "/", "_")
  }

  /** The sanitised name has the length of the original, underscores where
      it had a space or a slash, the original character everywhere else,
      and so no space and no slash at all. */
  lemma SanitizeLayerNameSpec(name: string)
    ensures |SanitizeLayerName(name)| == |name|
    ensures forall k | 0 <= k < |name| ::
      SanitizeLayerName(name)[k] == if name[k] == ' ' || name[k] == '/' then '_' else name[k]
    ensures forall k | 0 <= k < |name| :: SanitizeLayerName(name)[k] != ' ' && SanitizeLayerName(name)[k] != '/'
  {
    ReplaceChar(name, ' ', '_');
    ReplaceChar(Replace(name, " ", "_"), '/', '_');
  }

  const GpkgPrefix := "data.gpkg|layername="

  /** The relative source of a layer written into `data.gpkg`. */
  function GpkgSource(layerName: string): string {
    GpkgPrefix + layerName
  }

  /** The source recovers the layer name it was built from. */
  lemma GpkgSourceName(layerName: string)
    ensures StartsWith(GpkgSource(layerName), GpkgPrefix)
    ensures GpkgSource(layerName)[|GpkgPrefix|..] == layerName
  {
  }

  predicate IsPostgresLayer(l: MapLayer) {
    l.provider == "postgres" || Contains(Lower(l.source), "postgresql")
  }

  /** `new_layer_sources` after the first `n` layers, in insertion order:
      the vector layers the writer reported no error for. */
  function Exported(layers: seq<MapLayer>, written: seq<bool>, n: nat): seq<(string, string)>
    requires n <= |layers| == |written|
  {
    if n == 0 then [] else
    var l := layers[n - 1];
    Exported(layers, written, n - 1)
      + (if l.isVector && written[n - 1] then [(l.id, GpkgSource(SanitizeLayerName(l.name)))] else [])
  }

  /** `postgresql_layers` after the first `n` layers. */
  function PostgresLayers(layers: seq<MapLayer>, n: nat): seq<MapLayer>
    requires n <= |layers|
  {
    if n == 0 then [] else
    PostgresLayers(layers, n - 1) + (if layers[n - 1].isVector && IsPostgresLayer(layers[n - 1]) then [layers[n - 1]] else [])
  }

  function VectorCount(layers: seq<MapLayer>, n: nat): nat
    requires n <= |layers|
  {
    if n == 0 then 0 else VectorCount(layers, n - 1) + (if layers[n - 1].isVector then 1 else 0)
  }

  /** The export loop of `_on_archive_project`. `written[i]` is whether
      the GeoPackage writer reported no error for layer `i`; `modes` lists
      the mode each write used and `steps` the progress steps taken. */
  method ExportLayers(layers: seq<MapLayer>, written: seq<bool>)
    returns (modes: seq<WriteMode>, newSources: seq<(string, string)>, postgres: seq<MapLayer>, steps: nat)
    requires |written| == |layers|
    ensures newSources == Exported(layers, written, |layers|)
    ensures postgres == PostgresLayers(layers, |layers|)
    ensures steps == |modes| == VectorCount(layers, |layers|)
    ensures forall k | 0 <= k < |modes| :: modes[k] == if k == 0 then CreateOrOverwriteFile else CreateOrOverwriteLayer
  {
    modes, newSources, postgres, steps := [], [], [], 0;
    var firstLayer := true;
    var i := 0;
    while i < |layers|
      invariant i <= |layers|
      invariant newSources == Exported(layers, written, i)
      invariant postgres == PostgresLayers(layers, i)
      invariant steps == |modes| == VectorCount(layers, i)
      invariant firstLayer <==> modes == []
      invariant forall k | 0 <= k < |modes| :: modes[k] == if k == 0 then CreateOrOverwriteFile else CreateOrOverwriteLayer
    {
      var layer := layers[i];
      if layer.isVector {
        if layer.provider == "postgres" || Contains(Lower(layer.source), "postgresql") {
          postgres := postgres + [layer];
        }
        var layerName := SanitizeLayerName(layer.name);
        var mode;
        if firstLayer {
          mode := CreateOrOverwriteFile;
          firstLayer := false;
        } else {
          mode := CreateOrOverwriteLayer;
        }
        modes := modes + [mode];
        if written[i] {
          newSources := newSources + [(layer.id, GpkgSource(layerName))];
        }
        steps := steps + 1;
      }
      i := i + 1;
    }
  }

  /** An entry is recorded exactly for a vector layer written without
      error, with that layer's id and the GeoPackage source of its
      sanitised name. */
  lemma {:induction false} ExportedEntries(layers: seq<MapLayer>, written: seq<bool>, n: nat, id: string, src: string)
    requires n <= |layers| == |written|
    ensures (id, src) in Exported(layers, written, n) <==>
      exists k | 0 <= k < n :: layers[k].isVector && written[k] && layers[k].id == id
        && src == GpkgSource(SanitizeLayerName(layers[k].name))
  {
    if n > 0 {
      ExportedEntries(layers, written, n - 1, id, src);
    }
  }

  /** Layer ids are dictionary keys, so the recorded ids are distinct. */
  lemma {:induction false} ExportedDistinct(layers: seq<MapLayer>, written: seq<bool>, n: nat)
    requires n <= |layers| == |written|
    requires forall i, j | 0 <= i < j < |layers| :: layers[i].id != layers[j].id
    ensures DistinctKeys(Exported(layers, written, n))
    ensures forall e | e in Exported(layers, written, n) ::
      exists k | 0 <= k < n :: layers[k].id == e.0
  {
    if n > 0 {
      ExportedDistinct(layers, written, n - 1);
      var prev := Exported(layers, written, n - 1);
      forall e | e in prev ensures e.0 != layers[n - 1].id {
        var k :| 0 <= k < n - 1 && layers[k].id == e.0;
      }
      assert forall e | e in Exported(layers, written, n) :: e in prev || e.0 == layers[n - 1].id;
    }
  }

  // ------------------------------------------------------------------
  // The dictionary of new sources

  predicate DistinctKeys(s: seq<(string, string)>) {
    forall i, j | 0 <= i < j < |s| :: s[i].0 != s[j].0
  }

  /** The dictionary an insertion-ordered list of entries stands for. */
  function AsMap(s: seq<(string, string)>): (m: map<string, string>)
    ensures forall k :: k in m <==> exists i | 0 <= i < |s| :: s[i].0 == k
  {
    if s == [] then map[] else AsMap(s[..|s| - 1])[s[|s| - 1].0 := s[|s| - 1].1]
  }

  /** Without repeated keys, every entry is what the dictionary holds for
      its key. */
  lemma {:induction false} AsMapLookup(s: seq<(string, string)>, i: nat)
    requires DistinctKeys(s) && i < |s|
    ensures AsMap(s)[s[i].0] == s[i].1
  {
    if i < |s| - 1 {
      var t := s[..|s| - 1];
      assert t[i] == s[i];
      assert DistinctKeys(t) by {
        forall a, b | 0 <= a < b < |t| ensures t[a].0 != t[b].0 {
          assert t[a] == s[a] && t[b] == s[b];
        }
      }
      AsMapLookup(t, i);
    }
  }

  // ------------------------------------------------------------------
  // Project elements

  /** An element: its tag, its attributes, and the text of the first child
      of each child tag (`""` for a child without text). */
  datatype Element = Element(tag: string, attrs: map<string, string>, texts: map<string, string>)

  const Ogr := "ogr"

  function Get(m: map<string, string>, k: string): Option<string> {
    if k in m then Some(m[k]) else None
  }

  /** `value in new_sources` for a value `get` may have returned as `None`. */
  predicate Listed(ns: map<string, string>, v: Option<string>) {
    v.Some? && v.value in ns
  }

  /** `m[k] = v` for a child `find` located, nothing when it is missing. */
  function SetIfPresent(m: map<string, string>, k: string, v: string): map<string, string> {
    if k in m then m[k := v] else m
  }

  /** `maplayer.get("id") or maplayer.findtext("id")`. */
  function MapLayerId(e: Element): Option<string> {
    if "id" in e.attrs && e.attrs["id"] != "" then Some(e.attrs["id"])
    else Get(e.texts, "id")
  }

  /** Step 1: a listed `maplayer` gets the new datasource text and provider
      `ogr`, each only where that child exists. */
  function RewriteMapLayer(e: Element, ns: map<string, string>): (r: Element)
    ensures r.tag == e.tag && r.attrs == e.attrs
    ensures e.tag != "maplayer" ==> r == e
  {
    if e.tag == "maplayer" && Listed(ns, MapLayerId(e)) then
      e.(texts := SetIfPresent(SetIfPresent(e.texts, "datasource", ns[MapLayerId(e).value]), "provider", Ogr))
    else e
  }

  /** Step 2: a listed `layer-tree-layer` gets `providerKey` and `source`. */
  function RewriteTreeLayer(e: Element, ns: map<string, string>): (r: Element)
    ensures r.tag == e.tag && r.texts == e.texts
    ensures e.tag != "layer-tree-layer" ==> r == e
  {
    if e.tag == "layer-tree-layer" && Listed(ns, Get(e.attrs, "id")) then
      e.(attrs := e.attrs["providerKey" := Ogr]["source" := ns[e.attrs["id"]]])
    else e
  }

  /** Step 3: a `relation` takes the data source of its referencing layer,
      then (overriding it) of its referenced layer, and provider `ogr` when
      either is listed. */
  function RewriteRelation(e: Element, ns: map<string, string>): (r: Element)
    ensures r.tag == e.tag && r.texts == e.texts
    ensures e.tag != "relation" ==> r == e
  {
    if e.tag != "relation" then e else
    var referencing := Get(e.attrs, "referencingLayer");
    var referenced := Get(e.attrs, "referencedLayer");
    var a1 := if Listed(ns, referencing) then e.attrs["dataSource" := ns[referencing.value]] else e.attrs;
    var a2 := if Listed(ns, referenced) then a1["dataSource" := ns[referenced.value]] else a1;
    var a3 := if Listed(ns, referencing) || Listed(ns, referenced) then a2["providerKey" := Ogr] else a2;
    e.(attrs := a3)
  }

  /** The matching test of step 4: `layer_id in source or any(part in
      source for part in source.split())`. */
  predicate SourceMatches(id: string, source: string) {
    Contains(source, id) || exists part | part in SplitSpaces(source) :: Contains(source, part)
  }

  /** The `for … break` of step 4: the first entry that matches. */
  function FirstMatching(sources: seq<(string, string)>, source: string, i: nat): (r: Option<nat>)
    requires i <= |sources|
    ensures r.Some? ==> i <= r.value < |sources| && SourceMatches(sources[r.value].0, source)
    ensures r.Some? ==> forall j | i <= j < r.value :: !SourceMatches(sources[j].0, source)
    ensures r.None? ==> forall j | i <= j < |sources| :: !SourceMatches(sources[j].0, source)
    decreases |sources| - i
  {
    if i == |sources| then None
    else if SourceMatches(sources[i].0, source) then Some(i)
    else FirstMatching(sources, source, i + 1)
  }

  predicate PostgresSource(source: string) {
    source != "" && (Contains(Lower(source), "postgres") || Contains(source, "dbname="))
  }

  /** Step 4: a style `Layer` whose source looks like PostgreSQL takes the
      source of the first matching entry and provider `ogr`. */
  function RewriteStyleLayer(e: Element, sources: seq<(string, string)>): (r: Element)
    ensures r.tag == e.tag && r.texts == e.texts
    ensures e.tag != "Layer" ==> r == e
  {
    var source := Get(e.attrs, "source");
    if e.tag == "Layer" && source.Some? && PostgresSource(source.value) then
      match FirstMatching(sources, source.value, 0)
      case None => e
      case Some(i) => e.(attrs := e.attrs["source" := sources[i].1]["provider" := Ogr])
    else e
  }

  /** Step 5: a listed `LayerStyle` gets `source` and `provider`. */
  function RewriteLayerStyle(e: Element, ns: map<string, string>): (r: Element)
    ensures r.tag == e.tag && r.texts == e.texts
    ensures e.tag != "LayerStyle" ==> r == e
  {
    if e.tag == "LayerStyle" && Listed(ns, Get(e.attrs, "layerid")) then
      e.(attrs := e.attrs["source" := ns[e.attrs["layerid"]]]["provider" := Ogr])
    else e
  }

  /** Step 6, on the first `Atlas`: a listed coverage layer. */
  function RewriteAtlas(e: Element, ns: map<string, string>): (r: Element)
    ensures r.tag == e.tag && r.texts == e.texts
  {
    var coverage := Get(e.attrs, "coverageLayer");
    if Listed(ns, coverage) then
      e.(attrs := e.attrs["coverageLayer" := coverage.value]["coverageLayerSource" := ns[coverage.value]]
                         ["coverageLayerProvider" := Ogr])
    else e
  }

  /** Step 7, on the first `ProjectGpsSettings`: a listed destination layer. */
  function RewriteGps(e: Element, ns: map<string, string>): (r: Element)
    ensures r.tag == e.tag && r.texts == e.texts
  {
    var dest := Get(e.attrs, "destinationLayer");
    if Listed(ns, dest) then
      e.(attrs := e.attrs["destinationLayerSource" := ns[dest.value]]["destinationLayerProvider" := Ogr])
    else e
  }

  /** Step 8: an `Option` named `LayerProviderName` with value `postgres`. */
  function RewriteOption(e: Element): (r: Element)
    ensures r.tag == e.tag && r.texts == e.texts
    ensures e.tag != "Option" ==> r == e
  {
    if e.tag == "Option" && Get(e.attrs, "name") == Some("LayerProviderName") && Get(e.attrs, "value") == Some("postgres") then
      e.(attrs := e.attrs["value" := Ogr])
    else e
  }

  /** The eight passes, in the order the source runs them. */
  datatype Pass = MapLayerPass | TreeLayerPass | RelationPass | StyleLayerPass | LayerStylePass
                | AtlasPass | GpsPass | OptionPass

  /** What one pass does to one element it visits. */
  function Apply(p: Pass, e: Element, sources: seq<(string, string)>): (r: Element)
    ensures r.tag == e.tag
  {
    var ns := AsMap(sources);
    match p
    case MapLayerPass => RewriteMapLayer(e, ns)
    case TreeLayerPass => RewriteTreeLayer(e, ns)
    case RelationPass => RewriteRelation(e, ns)
    case StyleLayerPass => RewriteStyleLayer(e, sources)
    case LayerStylePass => RewriteLayerStyle(e, ns)
    case AtlasPass => RewriteAtlas(e, ns)
    case GpsPass => RewriteGps(e, ns)
    case OptionPass => RewriteOption(e)
  }

  /** A `findall` pass over every element. */
  function MapPass(es: seq<Element>, p: Pass, sources: seq<(string, string)>): (r: seq<Element>)
    ensures |r| == |es| && forall k | 0 <= k < |es| :: r[k] == Apply(p, es[k], sources)
  {
    seq(|es|, k requires 0 <= k < |es| => Apply(p, es[k], sources))
  }

  /** `root.find(".//tag")`: the first element with that tag. */
  function FirstIndex(es: seq<Element>, tag: string, i: nat): (r: Option<nat>)
    requires i <= |es|
    ensures r.Some? ==> i <= r.value < |es| && es[r.value].tag == tag
    ensures r.Some? ==> forall j | i <= j < r.value :: es[j].tag != tag
    ensures r.None? ==> forall j | i <= j < |es| :: es[j].tag != tag
    decreases |es| - i
  {
    if i == |es| then None
    else if es[i].tag == tag then Some(i)
    else FirstIndex(es, tag, i + 1)
  }

  /** A `find` pass on the first element with the tag only. */
  function AtFirst(es: seq<Element>, tag: string, p: Pass, sources: seq<(string, string)>): (r: seq<Element>)
    ensures |r| == |es|
    ensures forall k | 0 <= k < |es| :: r[k].tag == es[k].tag
    ensures forall k | 0 <= k < |es| :: r[k] == if FirstIndex(es, tag, 0) == Some(k) then Apply(p, es[k], sources) else es[k]
  {
    match FirstIndex(es, tag, 0)
    case None => es
    case Some(i) => es[i := Apply(p, es[i], sources)]
  }

  /** The first five passes, which visit every element. */
  function AllPasses(es: seq<Element>, sources: seq<(string, string)>): (r: seq<Element>)
    ensures |r| == |es| && forall k | 0 <= k < |es| :: r[k].tag == es[k].tag
  {
    var s1 := MapPass(es, MapLayerPass, sources);
    var s2 := MapPass(s1, TreeLayerPass, sources);
    var s3 := MapPass(s2, RelationPass, sources);
    var s4 := MapPass(s3, StyleLayerPass, sources);
    MapPass(s4, LayerStylePass, sources)
  }

  /** The eight element passes of `_update_project_sources_comprehensive`,
      in the order it runs them. */
  function Updated(es: seq<Element>, sources: seq<(string, string)>): (r: seq<Element>)
    ensures |r| == |es|
  {
    var s5 := AllPasses(es, sources);
    var s6 := AtFirst(s5, "Atlas", AtlasPass, sources);
    var s7 := AtFirst(s6, "ProjectGpsSettings", GpsPass, sources);
    MapPass(s7, OptionPass, sources)
  }

  /** Element lists with the same tags have their first `tag` at the same
      place. */
  lemma {:induction false} FirstIndexTags(a: seq<Element>, b: seq<Element>, tag: string, i: nat)
    requires |a| == |b| && i <= |a|
    requires forall k | 0 <= k < |a| :: a[k].tag == b[k].tag
    ensures FirstIndex(a, tag, i) == FirstIndex(b, tag, i)
    decreases |a| - i
  {
    if i < |a| {
      FirstIndexTags(a, b, tag, i + 1);
    }
  }

  predicate IsRewrittenTag(tag: string) {
    tag in {"maplayer", "layer-tree-layer", "relation", "Layer", "LayerStyle", "Atlas", "ProjectGpsSettings", "Option"}
  }

  /** The eight passes as they act on one element; `atlas` and `gps` say
      whether it is the first element of its tag. */
  function Chain(e: Element, sources: seq<(string, string)>, atlas: bool, gps: bool): Element {
    var c5 := FirstFive(e, sources);
    var c6 := if atlas then Apply(AtlasPass, c5, sources) else c5;
    var c7 := if gps then Apply(GpsPass, c6, sources) else c6;
    Apply(OptionPass, c7, sources)
  }

  lemma UpdatedChain(es: seq<Element>, sources: seq<(string, string)>, k: nat)
    requires k < |es|
    ensures Updated(es, sources)[k]
      == Chain(es[k], sources, FirstIndex(es, "Atlas", 0) == Some(k), FirstIndex(es, "ProjectGpsSettings", 0) == Some(k))
  {
    var s5 := AllPasses(es, sources);
    var s6 := AtFirst(s5, "Atlas", AtlasPass, sources);
    FirstIndexTags(s5, es, "Atlas", 0);
    FirstIndexTags(s6, es, "ProjectGpsSettings", 0);
  }

  /** The eight tags the passes look for are different strings. */
  lemma TagsDistinct()
    ensures "maplayer" != "relation" && "Layer" != "Atlas"
    ensures |"maplayer"| == 8 && |"layer-tree-layer"| == 16 && |"relation"| == 8 && |"Layer"| == 5
    ensures |"LayerStyle"| == 10 && |"Atlas"| == 5 && |"ProjectGpsSettings"| == 18 && |"Option"| == 6
  {
    assert "maplayer"[0] != "relation"[0];
    assert "Layer"[0] != "Atlas"[0];
  }

  /** The five passes `AllPasses` runs, as they act on one element. */
  function FirstFive(e: Element, sources: seq<(string, string)>): Element {
    Apply(LayerStylePass, Apply(StyleLayerPass, Apply(RelationPass,
      Apply(TreeLayerPass, Apply(MapLayerPass, e, sources), sources), sources), sources), sources)
  }

  /** The tag each pass looks for. */
  function PassTag(p: Pass): string {
    match p
    case MapLayerPass => "maplayer"
    case TreeLayerPass => "layer-tree-layer"
    case RelationPass => "relation"
    case StyleLayerPass => "Layer"
    case LayerStylePass => "LayerStyle"
    case AtlasPass => "Atlas"
    case GpsPass => "ProjectGpsSettings"
    case OptionPass => "Option"
  }

  /** The passes that check the tag leave every other element alone. */
  lemma ApplyElsewhere(p: Pass, e: Element, sources: seq<(string, string)>)
    requires p != AtlasPass && p != GpsPass && e.tag != PassTag(p)
    ensures Apply(p, e, sources) == e
  {
  }

  /** Of the first five passes, only the one for the element's tag acts. */
  lemma FirstFiveByTag(e: Element, sources: seq<(string, string)>)
    ensures var ns := AsMap(sources);
      var r := FirstFive(e, sources);
      && (e.tag == "maplayer" ==> r == RewriteMapLayer(e, ns))
      && (e.tag == "layer-tree-layer" ==> r == RewriteTreeLayer(e, ns))
      && (e.tag == "relation" ==> r == RewriteRelation(e, ns))
      && (e.tag == "Layer" ==> r == RewriteStyleLayer(e, sources))
      && (e.tag == "LayerStyle" ==> r == RewriteLayerStyle(e, ns))
      && (e.tag !in {"maplayer", "layer-tree-layer", "relation", "Layer", "LayerStyle"} ==> r == e)
  {
    TagsDistinct();
    var c1 := Apply(MapLayerPass, e, sources);
    var c2 := Apply(TreeLayerPass, c1, sources);
    var c3 := Apply(RelationPass, c2, sources);
    var c4 := Apply(StyleLayerPass, c3, sources);
    if e.tag != "maplayer" { ApplyElsewhere(MapLayerPass, e, sources); }
    if e.tag != "layer-tree-layer" { ApplyElsewhere(TreeLayerPass, c1, sources); }
    if e.tag != "relation" { ApplyElsewhere(RelationPass, c2, sources); }
    if e.tag != "Layer" { ApplyElsewhere(StyleLayerPass, c3, sources); }
    if e.tag != "LayerStyle" { ApplyElsewhere(LayerStylePass, c4, sources); }
  }

  /** Each pass acts on its own tag only, so an element goes through the one
      pass for its tag and every other element is left as it was. */
  lemma ChainByTag(e: Element, sources: seq<(string, string)>, atlas: bool, gps: bool)
    requires atlas ==> e.tag == "Atlas"
    requires gps ==> e.tag == "ProjectGpsSettings"
    ensures var ns := AsMap(sources);
      var r := Chain(e, sources, atlas, gps);
      && r.tag == e.tag
      && (e.tag == "maplayer" ==> r == RewriteMapLayer(e, ns))
      && (e.tag == "layer-tree-layer" ==> r == RewriteTreeLayer(e, ns))
      && (e.tag == "relation" ==> r == RewriteRelation(e, ns))
      && (e.tag == "Layer" ==> r == RewriteStyleLayer(e, sources))
      && (e.tag == "LayerStyle" ==> r == RewriteLayerStyle(e, ns))
      && (e.tag == "Atlas" ==> r == if atlas then RewriteAtlas(e, ns) else e)
      && (e.tag == "ProjectGpsSettings" ==> r == if gps then RewriteGps(e, ns) else e)
      && (e.tag == "Option" ==> r == RewriteOption(e))
      && (!IsRewrittenTag(e.tag) ==> r == e)
  {
    TagsDistinct();
    FirstFiveByTag(e, sources);
    var c5 := FirstFive(e, sources);
    var c7 := if gps then Apply(GpsPass, if atlas then Apply(AtlasPass, c5, sources) else c5, sources)
              else if atlas then Apply(AtlasPass, c5, sources) else c5;
    if e.tag != "Option" { ApplyElsewhere(OptionPass, c7, sources); }
  }

  /** Each element goes through the one pass for its tag: the eight passes
      touch disjoint tags, so their order does not matter, and every other
      element is left as it was. */
  lemma UpdatedAt(es: seq<Element>, sources: seq<(string, string)>, k: nat)
    requires k < |es|
    ensures var ns := AsMap(sources);
      var e := es[k];
      var r := Updated(es, sources)[k];
      && r.tag == e.tag
      && (e.tag == "maplayer" ==> r == RewriteMapLayer(e, ns))
      && (e.tag == "layer-tree-layer" ==> r == RewriteTreeLayer(e, ns))
      && (e.tag == "relation" ==> r == RewriteRelation(e, ns))
      && (e.tag == "Layer" ==> r == RewriteStyleLayer(e, sources))
      && (e.tag == "LayerStyle" ==> r == RewriteLayerStyle(e, ns))
      && (e.tag == "Atlas" ==> r == if FirstIndex(es, "Atlas", 0) == Some(k) then RewriteAtlas(e, ns) else e)
      && (e.tag == "ProjectGpsSettings" ==>
            r == if FirstIndex(es, "ProjectGpsSettings", 0) == Some(k) then RewriteGps(e, ns) else e)
      && (e.tag == "Option" ==> r == RewriteOption(e))
      && (!IsRewrittenTag(e.tag) ==> r == e)
  {
    UpdatedChain(es, sources, k);
    ChainByTag(es[k], sources, FirstIndex(es, "Atlas", 0) == Some(k), FirstIndex(es, "ProjectGpsSettings", 0) == Some(k));
  }

  /** A `maplayer`, `layer-tree-layer` or `LayerStyle` element whose id is
      not a key of `new_sources` comes out unchanged. */
  lemma UnlistedUntouched(es: seq<Element>, sources: seq<(string, string)>, k: nat)
    requires k < |es|
    ensures var e := es[k]; var ns := AsMap(sources);
      && (e.tag == "maplayer" && !Listed(ns, MapLayerId(e)) ==> Updated(es, sources)[k] == e)
      && (e.tag == "layer-tree-layer" && !Listed(ns, Get(e.attrs, "id")) ==> Updated(es, sources)[k] == e)
      && (e.tag == "LayerStyle" && !Listed(ns, Get(e.attrs, "layerid")) ==> Updated(es, sources)[k] == e)
  {
    UpdatedAt(es, sources, k);
  }

  /** A listed `maplayer` takes the new source in its `datasource` child
      and `ogr` in its `provider` child, each where that child exists, and
      keeps everything else. */
  lemma MapLayerRewritten(es: seq<Element>, sources: seq<(string, string)>, k: nat)
    requires k < |es|
    requires es[k].tag == "maplayer" && Listed(AsMap(sources), MapLayerId(es[k]))
    ensures var e := es[k]; var r := Updated(es, sources)[k];
      && r.attrs == e.attrs
      && r.texts.Keys == e.texts.Keys
      && ("datasource" in e.texts ==> r.texts["datasource"] == AsMap(sources)[MapLayerId(e).value])
      && ("provider" in e.texts ==> r.texts["provider"] == Ogr)
      && (forall t | t in e.texts && t != "datasource" && t != "provider" :: r.texts[t] == e.texts[t])
  {
    UpdatedAt(es, sources, k);
  }

  /** A listed `layer-tree-layer` takes provider key `ogr` and the new
      source. */
  lemma TreeLayerRewritten(es: seq<Element>, sources: seq<(string, string)>, k: nat)
    requires k < |es|
    requires es[k].tag == "layer-tree-layer" && Listed(AsMap(sources), Get(es[k].attrs, "id"))
    ensures Updated(es, sources)[k].attrs
      == es[k].attrs["providerKey" := Ogr]["source" := AsMap(sources)[es[k].attrs["id"]]]
  {
    UpdatedAt(es, sources, k);
  }

  /** A listed `LayerStyle` takes the new source and provider `ogr`. */
  lemma LayerStyleRewritten(es: seq<Element>, sources: seq<(string, string)>, k: nat)
    requires k < |es|
    requires es[k].tag == "LayerStyle" && Listed(AsMap(sources), Get(es[k].attrs, "layerid"))
    ensures Updated(es, sources)[k].attrs
      == es[k].attrs["source" := AsMap(sources)[es[k].attrs["layerid"]]]["provider" := Ogr]
  {
    UpdatedAt(es, sources, k);
  }

  /** A lower-case text with a non-space first character marks a source
      that `split()` breaks into at least one part occurring in it. */
  lemma PostgresSourceMatches(source: string, id: string)
    requires PostgresSource(source)
    ensures SourceMatches(id, source)
  {
    ContainsNonSpace(source, "postgres");
    ContainsNonSpace(source, "dbname=");
    SplitSpacesFirst(source);
    var part := SplitSpaces(source)[0];
    assert part in SplitSpaces(source) && Contains(source, part);
  }

  /** In step 4 the `any(...)` test always holds, so every style `Layer`
      whose source looks like PostgreSQL takes the first entry of
      `new_sources`, whatever its id. */
  lemma StyleLayerTakesFirst(es: seq<Element>, sources: seq<(string, string)>, k: nat)
    requires k < |es|
    ensures var e := es[k]; var r := Updated(es, sources)[k];
      e.tag == "Layer" ==>
        if "source" in e.attrs && PostgresSource(e.attrs["source"]) && sources != [] then
          r.attrs == e.attrs["source" := sources[0].1]["provider" := Ogr]
        else r == e
  {
    UpdatedAt(es, sources, k);
    var e := es[k];
    if e.tag == "Layer" && "source" in e.attrs && PostgresSource(e.attrs["source"]) && sources != [] {
      PostgresSourceMatches(e.attrs["source"], sources[0].0);
    }
  }

  // ------------------------------------------------------------------
  // Step 9: the text pass over the serialised project

  const KeyDouble := "providerKey=\"postgres\""
  const KeySingle := "providerKey='postgres'"
  const ProviderDouble := "provider=\"postgres\""
  const ProviderSingle := "provider='postgres'"
  const OgrKeyDouble := "providerKey=\"ogr\""
  const OgrKeySingle := "providerKey='ogr'"
  const OgrProviderDouble := "provider=\"ogr\""
  const OgrProviderSingle := "provider='ogr'"
  /** `<Option name="LayerProviderName" type="QString" value="` … `" />`,
      written in pieces. */
  const OptionOpen := "<Option name=\"" + "LayerProviderName" + "\" type=\"" + "QString" + "\" value=\""
  const OptionClose := "\" />"
  const OptionPostgres := OptionOpen + "postgres" + OptionClose
  const OptionOgr := OptionOpen + "ogr" + OptionClose

  /** The four spellings of a PostgreSQL provider attribute. */
  const PostgresProviders := [KeyDouble, KeySingle, ProviderDouble, ProviderSingle]

  const XmlHeader := "<?xml version=\"1.0\" encoding=\"UTF-8\"?>\n"

  /** The five `re.sub` calls of step 9. None of their patterns holds a
      regular-expression metacharacter, so each is a plain replacement of
      every occurrence. */
  function ProviderTextPass(content: string): string {
    var c1 := Replace(content, KeyDouble, OgrKeyDouble);
    var c2 := Replace(c1, KeySingle, OgrKeySingle);
    var c3 := Replace(c2, ProviderDouble, OgrProviderDouble);
    var c4 := Replace(c3, ProviderSingle, OgrProviderSingle);
    Replace(c4, OptionPostgres, OptionOgr)
  }

  /** No `ogr` replacement can combine with its surroundings into one of
      the PostgreSQL spellings replaced before it: each spelling has an
      `s` (from `postgres`) that no replacement has, and the pair that
      starts either string occurs in the other only at its start. */
  lemma CompatibleKeyDoubleKeyDouble()
    ensures Compatible(KeyDouble, OgrKeyDouble)
  {
    CompatibleByPairs(KeyDouble, OgrKeyDouble, 's', 13);
  }

  lemma CompatibleKeyDoubleKeySingle()
    ensures Compatible(KeyDouble, OgrKeySingle)
  {
    CompatibleByPairs(KeyDouble, OgrKeySingle, 's', 12);
  }

  lemma CompatibleKeySingleKeySingle()
    ensures Compatible(KeySingle, OgrKeySingle)
  {
    CompatibleByPairs(KeySingle, OgrKeySingle, 's', 13);
  }

  lemma CompatibleKeyDoubleProviderDouble()
    ensures Compatible(KeyDouble, OgrProviderDouble)
  {
    CompatibleByPairs(KeyDouble, OgrProviderDouble, 's', 8);
  }

  lemma CompatibleKeySingleProviderDouble()
    ensures Compatible(KeySingle, OgrProviderDouble)
  {
    CompatibleByPairs(KeySingle, OgrProviderDouble, 's', 8);
  }

  lemma CompatibleProviderDoubleProviderDouble()
    ensures Compatible(ProviderDouble, OgrProviderDouble)
  {
    CompatibleByPairs(ProviderDouble, OgrProviderDouble, 's', 10);
  }

  lemma CompatibleKeyDoubleProviderSingle()
    ensures Compatible(KeyDouble, OgrProviderSingle)
  {
    CompatibleByPairs(KeyDouble, OgrProviderSingle, 's', 8);
  }

  lemma CompatibleKeySingleProviderSingle()
    ensures Compatible(KeySingle, OgrProviderSingle)
  {
    CompatibleByPairs(KeySingle, OgrProviderSingle, 's', 8);
  }

  lemma CompatibleProviderDoubleProviderSingle()
    ensures Compatible(ProviderDouble, OgrProviderSingle)
  {
    CompatibleByPairs(ProviderDouble, OgrProviderSingle, 's', 9);
  }

  lemma CompatibleProviderSingleProviderSingle()
    ensures Compatible(ProviderSingle, OgrProviderSingle)
  {
    CompatibleByPairs(ProviderSingle, OgrProviderSingle, 's', 10);
  }

  /** The `Option` replacement starts with `<` and ends with `>`, which
      none of the spellings holds. */
  lemma OptionOgrEnds()
    ensures OptionOgr != [] && OptionOgr[0] == '<' && OptionOgr[|OptionOgr| - 1] == '>' && 's' !in OptionOgr
  {
  }

  lemma SpellingFacts(q: string)
    requires q == KeyDouble || q == KeySingle || q == ProviderDouble || q == ProviderSingle
    ensures '<' !in q && '>' !in q && 's' in q
  {
    assert q[|q| - 2] == 's';
  }

  lemma OptionReplacementCompatible()
    ensures Compatible(KeyDouble, OptionOgr) && Compatible(KeySingle, OptionOgr)
    ensures Compatible(ProviderDouble, OptionOgr) && Compatible(ProviderSingle, OptionOgr)
  {
    OptionOgrEnds();
    SpellingFacts(KeyDouble);
    SpellingFacts(KeySingle);
    SpellingFacts(ProviderDouble);
    SpellingFacts(ProviderSingle);
    CompatibleByEnds(KeyDouble, OptionOgr, 's');
    CompatibleByEnds(KeySingle, OptionOgr, 's');
    CompatibleByEnds(ProviderDouble, OptionOgr, 's');
    CompatibleByEnds(ProviderSingle, OptionOgr, 's');
  }

  /** The XML declaration written before the text has no `p`, the first
      letter of every PostgreSQL spelling. */
  lemma HeaderFacts()
    ensures forall q | q in PostgresProviders :: q != [] && q[0] == 'p'
    ensures forall k | 0 <= k < |XmlHeader| :: XmlHeader[k] != 'p'
    ensures |KeyDouble| > 0 && |KeySingle| > 0 && |ProviderDouble| > 0 && |ProviderSingle| > 0 && |OptionPostgres| > 0
  {
  }

  /** After the text pass no PostgreSQL provider attribute is left, in
      either quote style, and the XML declaration does not bring one back. */
  lemma NoPostgresProviderLeft(content: string)
    ensures forall q | q in PostgresProviders :: !Contains(ProviderTextPass(content), q)
    ensures forall q | q in PostgresProviders :: !Contains(XmlHeader + ProviderTextPass(content), q)
  {
    HeaderFacts();
    CompatibleKeyDoubleKeyDouble();
    CompatibleKeyDoubleKeySingle();
    CompatibleKeySingleKeySingle();
    CompatibleKeyDoubleProviderDouble();
    CompatibleKeySingleProviderDouble();
    CompatibleProviderDoubleProviderDouble();
    CompatibleKeyDoubleProviderSingle();
    CompatibleKeySingleProviderSingle();
    CompatibleProviderDoubleProviderSingle();
    CompatibleProviderSingleProviderSingle();
    OptionReplacementCompatible();
    var c1 := Replace(content, KeyDouble, OgrKeyDouble);
    var c2 := Replace(c1, KeySingle, OgrKeySingle);
    var c3 := Replace(c2, ProviderDouble, OgrProviderDouble);
    var c4 := Replace(c3, ProviderSingle, OgrProviderSingle);
    var c5 := Replace(c4, OptionPostgres, OptionOgr);
    ReplaceAvoids(content, KeyDouble, OgrKeyDouble, KeyDouble, true);
    ReplaceAvoids(c1, KeySingle, OgrKeySingle, KeyDouble, false);
    ReplaceAvoids(c1, KeySingle, OgrKeySingle, KeySingle, true);
    ReplaceAvoids(c2, ProviderDouble, OgrProviderDouble, KeyDouble, false);
    ReplaceAvoids(c2, ProviderDouble, OgrProviderDouble, KeySingle, false);
    ReplaceAvoids(c2, ProviderDouble, OgrProviderDouble, ProviderDouble, true);
    ReplaceAvoids(c3, ProviderSingle, OgrProviderSingle, KeyDouble, false);
    ReplaceAvoids(c3, ProviderSingle, OgrProviderSingle, KeySingle, false);
    ReplaceAvoids(c3, ProviderSingle, OgrProviderSingle, ProviderDouble, false);
    ReplaceAvoids(c3, ProviderSingle, OgrProviderSingle, ProviderSingle, true);
    ReplaceAvoids(c4, OptionPostgres, OptionOgr, KeyDouble, false);
    ReplaceAvoids(c4, OptionPostgres, OptionOgr, KeySingle, false);
    ReplaceAvoids(c4, OptionPostgres, OptionOgr, ProviderDouble, false);
    ReplaceAvoids(c4, OptionPostgres, OptionOgr, ProviderSingle, false);
    assert ProviderTextPass(content) == c5;
    forall q | q in PostgresProviders ensures !Contains(XmlHeader + c5, q) {
      PrefixAvoids(XmlHeader, c5, q);
    }
  }

  /** The parsed project, rewritten in place pass by pass. */
  class ProjectTree {
    var elements: seq<Element>

    constructor (elements: seq<Element>)
      ensures this.elements == elements
    {
      this.elements := elements;
    }

    /** One `for elem in root.findall(…)` pass. */
    method RewriteAll(p: Pass, sources: seq<(string, string)>)
      modifies this
      ensures elements == MapPass(old(elements), p, sources)
    {
      var i := 0;
      while i < |elements|
        invariant i <= |elements| == |old(elements)|
        invariant forall k | 0 <= k < i :: elements[k] == Apply(p, old(elements)[k], sources)
        invariant forall k | i <= k < |elements| :: elements[k] == old(elements)[k]
      {
        elements := elements[i := Apply(p, elements[i], sources)];
        i := i + 1;
      }
    }

    /** A `root.find(…)` pass: only the first element with the tag. */
    method RewriteFirst(tag: string, p: Pass, sources: seq<(string, string)>)
      modifies this
      ensures elements == AtFirst(old(elements), tag, p, sources)
    {
      var found := FirstIndex(elements, tag, 0);
      if found.Some? {
        var i := found.value;
        elements := elements[i := Apply(p, elements[i], sources)];
      }
    }

    /** Steps 1 to 8 of `_update_project_sources_comprehensive`. */
    method UpdateSources(sources: seq<(string, string)>)
      modifies this
      ensures elements == Updated(old(elements), sources)
    {
      RewriteAll(MapLayerPass, sources);
      RewriteAll(TreeLayerPass, sources);
      RewriteAll(RelationPass, sources);
      RewriteAll(StyleLayerPass, sources);
      RewriteAll(LayerStylePass, sources);
      RewriteFirst("Atlas", AtlasPass, sources);
      RewriteFirst("ProjectGpsSettings", GpsPass, sources);
      RewriteAll(OptionPass, sources);
    }
  }

  // ------------------------------------------------------------------
  // The whole update

  /** `_update_project_sources_comprehensive` on the text of the copied
      project: credentials first, then the eight element passes, then the
      text pass, then the XML declaration. `parse` stands for
      `ET.fromstring` (`None` where it raises; the exception is logged and
      nothing is written) and `serialize` for `ET.tostring`. */
  method UpdateProjectSourcesComprehensive(content: string, sources: seq<(string, string)>,
                                           parse: string -> Option<seq<Element>>,
                                           serialize: seq<Element> -> string)
    returns (written: Option<string>, credentialsRemoved: nat)
    ensures credentialsRemoved == ArchiveProject.CredentialCount(content)
    ensures written.None? <==> parse(ArchiveProject.CleanCredentials(content)).None?
    ensures written.Some? ==>
      written.value == XmlHeader + ProviderTextPass(serialize(Updated(parse(ArchiveProject.CleanCredentials(content)).value, sources)))
    ensures written.Some? ==> forall q | q in PostgresProviders :: !Contains(written.value, q)
  {
    var cleaned;
    cleaned, credentialsRemoved := ArchiveProject.CleanCredentialsFromContent(content);
    var root := parse(cleaned);
    if root.None? {
      return None, credentialsRemoved;
    }
    var tree := new ProjectTree(root.value);
    tree.UpdateSources(sources);
    var serialized := serialize(tree.elements);
    var text := serialized;
    text := Replace(text, KeyDouble, OgrKeyDouble);
    text := Replace(text, KeySingle, OgrKeySingle);
    text := Replace(text, ProviderDouble, OgrProviderDouble);
    text := Replace(text, ProviderSingle, OgrProviderSingle);
    text := Replace(text, OptionPostgres, OptionOgr);
    NoPostgresProviderLeft(serialized);
    written := Some(XmlHeader + text);
  }

  /** Steps 4 and 5 of `_on_archive_project`: export the layers, then
      rewrite the copied project only when some layer got a new source
      (`None` when the file is left as it was). */
  method ConvertLayers(layers: seq<MapLayer>, exported: seq<bool>, content: string,
                       parse: string -> Option<seq<Element>>, serialize: seq<Element> -> string)
    returns (modes: seq<WriteMode>, newSources: seq<(string, string)>, written: Option<string>)
    requires |exported| == |layers|
    ensures newSources == Exported(layers, exported, |layers|)
    ensures |modes| == VectorCount(layers, |layers|)
    ensures written.Some? <==> newSources != [] && parse(ArchiveProject.CleanCredentials(content)).Some?
    ensures written.Some? ==>
      written.value == XmlHeader + ProviderTextPass(serialize(Updated(parse(ArchiveProject.CleanCredentials(content)).value, newSources)))
  {
    var postgres, steps;
    modes, newSources, postgres, steps := ExportLayers(layers, exported);
    written := None;
    if newSources != [] {
      var removed;
      written, removed := UpdateProjectSourcesComprehensive(content, newSources, parse, serialize);
    }
  }

  /** End to end: the `maplayer` of a vector layer the writer exported
      points, after the update, at the GeoPackage source of that layer's
      sanitised name. */
  lemma ExportedMapLayerSource(layers: seq<MapLayer>, exported: seq<bool>, es: seq<Element>, j: nat, k: nat)
    requires |exported| == |layers| && j < |layers| && k < |es|
    requires forall a, b | 0 <= a < b < |layers| :: layers[a].id != layers[b].id
    requires layers[j].isVector && exported[j]
    requires es[k].tag == "maplayer" && MapLayerId(es[k]) == Some(layers[j].id) && "datasource" in es[k].texts
    ensures var r := Updated(es, Exported(layers, exported, |layers|));
      |r| == |es| && "datasource" in r[k].texts && r[k].texts["datasource"] == GpkgSource(SanitizeLayerName(layers[j].name))
  {
    var sources := Exported(layers, exported, |layers|);
    var entry := (layers[j].id, GpkgSource(SanitizeLayerName(layers[j].name)));
    ExportedEntries(layers, exported, |layers|, entry.0, entry.1);
    ExportedDistinct(layers, exported, |layers|);
    var i :| 0 <= i < |sources| && sources[i] == entry;
    AsMapLookup(sources, i);
    MapLayerRewritten(es, sources, k);
  }
}
