/** traverse: the walk over the location forest that fills the three-level
    location tree (district, council, parish) and the flat alias index that
    maps every alias of a parish, and of the council and district above it, to
    a slash-separated path. */
module LocationTree {
  import opened Normalize
  import opened SynonymGenerator
  import opened JsValue

  // ---------------------------------------------------------------------------
  // Input and output data
  // ---------------------------------------------------------------------------

  /** A record of the location forest: `{slug?, id?, name?, children?}`.
      Children that are not an array are the empty sequence. */
  datatype Node = Node(slug: Value, id: Value, name: Value, children: seq<Node>)

  /** `{_name, _synonyms}`: what the tree keeps about one location. */
  datatype Entry = Entry(name: string, synonyms: seq<string>)

  datatype Council = Council(entry: Entry, parishes: map<string, Entry>)

  datatype District = District(entry: Entry, councils: map<string, Council>)

  /** The location tree: district slug to district. */
  type Tree = map<string, District>

  /** The two objects traverse updates: the tree and the alias index. */
  datatype Snapshot = Snapshot(tree: Tree, index: map<string, string>)

  const Empty: Snapshot := Snapshot(map[], map[])

  /** The entry a newly met location receives. */
  function NewEntry(name: string): Entry {
    Entry(name, Synonyms(name))
  }

  // ---------------------------------------------------------------------------
  // Labels of a node
  // ---------------------------------------------------------------------------

  /** main.js:49: a node's slug is the text of its slug when that is truthy,
      else of its id when that is truthy, else the slug of its name (of ""
      when the name is falsy). */
  function SlugOf(node: Node): (r: string)
    ensures Truthy(node.slug) ==> r == ToStr(node.slug) && r != ""
    ensures !Truthy(node.slug) && Truthy(node.id) ==> r == ToStr(node.id) && r != ""
    ensures !Truthy(node.slug) && !Truthy(node.id) ==> r == Slugify(JsString(node.name))
  {
    if Truthy(node.slug) then ToStr(node.slug)
    else if Truthy(node.id) then ToStr(node.id)
    else Slugify(JsString(node.name))
  }

  /** main.js:50: a node's display name is the text of its name when that is
      truthy, otherwise its slug. */
  function NameOf(node: Node, slug: string): (r: string)
    ensures Truthy(node.name) ==> r == ToStr(node.name) && r != ""
    ensures !Truthy(node.name) ==> r == slug
  {
    if Truthy(node.name) then ToStr(node.name) else slug
  }

  /** A slug derived from the name is empty or hyphen-joined words of
      [a-z0-9], and then it is the slug of the node's own name. */
  lemma DerivedSlug(node: Node)
    requires !Truthy(node.slug) && !Truthy(node.id)
    ensures SlugOf(node) == "" || MatchesWords(SlugOf(node), '-')
    ensures var t := Lowered(JsString(node.name));
      SlugOf(node) == "" <==> forall i | 0 <= i < |t| :: !IsAlnum(t[i])
    ensures Truthy(node.name) ==> SlugOf(node) == Slugify(NameOf(node, SlugOf(node)))
  {
    SlugifyMatchesPattern(JsString(node.name));
    SlugifyEmptyIff(JsString(node.name));
  }

  // ---------------------------------------------------------------------------
  // Paths into the tree
  // ---------------------------------------------------------------------------

  /** The tree holds an entry at this path of one, two or three slugs. */
  predicate Present(tree: Tree, path: seq<string>) {
    if |path| == 1 then path[0] in tree
    else if |path| == 2 then path[0] in tree && path[1] in tree[path[0]].councils
    else if |path| == 3 then
      path[0] in tree && path[1] in tree[path[0]].councils
      && path[2] in tree[path[0]].councils[path[1]].parishes
    else false
  }

  function EntryAt(tree: Tree, path: seq<string>): Entry
    requires Present(tree, path)
  {
    if |path| == 1 then tree[path[0]].entry
    else if |path| == 2 then tree[path[0]].councils[path[1]].entry
    else tree[path[0]].councils[path[1]].parishes[path[2]]
  }

  /** The parents a node at this path needs: its district and its council
      exist, so that `outTree[dSlug][cSlug]` can be read. */
  predicate PathReady(tree: Tree, ps: seq<string>) {
    |ps| >= 1 ==> ps[0] in tree && (|ps| >= 2 ==> ps[1] in tree[ps[0]].councils)
  }

  /** `d`, `d/c` or `d/c/p` */
  function PathString(path: seq<string>): string
    decreases |path|
  {
    if path == [] then ""
    else if |path| == 1 then path[0]
    else PathString(path[..|path| - 1]) + "/" + path[|path| - 1]
  }

  /** Every entry of a is in b, unchanged: the first insert wins. */
  ghost predicate Extends(a: Tree, b: Tree) {
    forall path | Present(a, path) :: Present(b, path) && EntryAt(b, path) == EntryAt(a, path)
  }

  /** b holds no parish that a lacks. */
  ghost predicate NoNewParish(a: Tree, b: Tree) {
    forall path | |path| == 3 && Present(b, path) :: Present(a, path)
  }

  /** Every alias leads to a location of the tree. */
  ghost predicate IndexSound(st: Snapshot) {
    forall k | k in st.index ::
      exists path :: Present(st.tree, path) && PathString(path) == st.index[k]
  }

  // ---------------------------------------------------------------------------
  // The index writes
  // ---------------------------------------------------------------------------

  /** main.js:75-77: every key in turn is made to point to v, later writes
      overriding earlier ones. */
  function WriteAll(idx: map<string, string>, keys: seq<string>, v: string): (r: map<string, string>)
    ensures forall k :: k in r <==> k in idx || k in keys
    ensures forall k | k in r :: r[k] == if k in keys then v else idx[k]
    decreases |keys|
  {
    if keys == [] then idx else WriteAll(idx[keys[0] := v], keys[1..], v)
  }

  lemma WriteAllSnoc(idx: map<string, string>, keys: seq<string>, k: string, v: string)
    ensures WriteAll(idx, keys + [k], v) == WriteAll(idx, keys, v)[k := v]
  {
    var a, b := WriteAll(idx, keys + [k], v), WriteAll(idx, keys, v)[k := v];
    assert forall x :: x in keys + [k] <==> x in keys || x == k;
    assert a.Keys == b.Keys;
    forall x | x in a ensures a[x] == b[x] { }
  }

  /** One more key of a forEach over keys[..i]. */
  lemma WriteAllStep(idx: map<string, string>, keys: seq<string>, i: nat, v: string)
    requires i < |keys|
    ensures WriteAll(idx, keys[..i + 1], v) == WriteAll(idx, keys[..i], v)[keys[i] := v]
  {
    assert keys[..i + 1] == keys[..i] + [keys[i]];
    WriteAllSnoc(idx, keys[..i], keys[i], v);
  }

  /** One more key of a forEach over keys[..i] that skips empty keys. */
  lemma WriteNonEmptyStep(idx: map<string, string>, keys: seq<string>, i: nat, v: string)
    requires i < |keys|
    ensures WriteAll(idx, RemoveEmpty(keys[..i + 1]), v)
      == if keys[i] == "" then WriteAll(idx, RemoveEmpty(keys[..i]), v)
         else WriteAll(idx, RemoveEmpty(keys[..i]), v)[keys[i] := v]
  {
    assert keys[..i + 1] == keys[..i] + [keys[i]];
    RemoveEmptySnoc(keys[..i], keys[i]);
    if keys[i] != "" {
      WriteAllSnoc(idx, RemoveEmpty(keys[..i]), keys[i], v);
    } else {
      assert RemoveEmpty(keys[..i + 1]) == RemoveEmpty(keys[..i]);
    }
  }

  /** The normalised names of the path: district, district and council,
      district, council and parish. */
  function Combos(n0: string, n1: string, n2: string): seq<string> {
    [Norm(n0), Norm(n0 + " " + n1), Norm(n0 + " " + n1 + " " + n2)]
  }

  /** The index after a new parish p of council c of district d: the district
      aliases to d, the council aliases to d/c, then the parish aliases and the
      non-empty path names to d/c/p, each write replacing the one before. */
  function ParishIndex(idx: map<string, string>, de: Entry, ce: Entry, pe: Entry,
                       d: string, c: string, p: string, n0: string, n1: string, n2: string): map<string, string>
  {
    var full := d + "/" + c + "/" + p;
    var i1 := WriteAll(idx, de.synonyms, d);
    var i2 := WriteAll(i1, ce.synonyms, d + "/" + c);
    var i3 := WriteAll(i2, pe.synonyms, full);
    WriteAll(i3, RemoveEmpty(Combos(n0, n1, n2)), full)
  }

  // ---------------------------------------------------------------------------
  // traverse
  // ---------------------------------------------------------------------------

  /** The body of traverse before the descent: insert the node at its level
      when absent, and on a new parish write the index. A missing parent, which
      is a TypeError in the source and cannot occur on a walk from the roots,
      leaves the state unchanged. */
  function Visit(st: Snapshot, ps: seq<string>, pn: seq<string>, slug: string, name: string): Snapshot
    requires |ps| == |pn|
  {
    var tree := st.tree;
    if |ps| == 0 then
      if slug in tree then st
      else st.(tree := tree[slug := District(NewEntry(name), map[])])
    else if |ps| == 1 then
      var d := ps[0];
      if d !in tree || slug in tree[d].councils then st
      else st.(tree := tree[d := tree[d].(councils := tree[d].councils[slug := Council(NewEntry(name), map[])])])
    else if |ps| == 2 then
      var d, c := ps[0], ps[1];
      if d !in tree || c !in tree[d].councils || slug in tree[d].councils[c].parishes then st
      else
        var council := tree[d].councils[c];
        var entry := NewEntry(name);
        var council' := council.(parishes := council.parishes[slug := entry]);
        Snapshot(tree[d := tree[d].(councils := tree[d].councils[c := council'])],
                 ParishIndex(st.index, tree[d].entry, council.entry, entry, d, c, slug, pn[0], pn[1], name))
    else st
  }

  /** traverse(node, ps, pn): visit the node, then its children in order. */
  function Walk(st: Snapshot, node: Node, ps: seq<string>, pn: seq<string>): Snapshot
    requires |ps| == |pn|
    decreases node, 1, 0
  {
    var slug := SlugOf(node);
    var name := NameOf(node, slug);
    WalkChildren(Visit(st, ps, pn, slug, name), node, |node.children|, ps + [slug], pn + [name])
  }

  /** The first i children of parent, walked in order. */
  function WalkChildren(st: Snapshot, parent: Node, i: nat, ps: seq<string>, pn: seq<string>): Snapshot
    requires i <= |parent.children|
    requires |ps| == |pn|
    decreases parent, 0, i
  {
    if i == 0 then st
    else
      assert parent.children[i - 1] in parent.children;
      Walk(WalkChildren(st, parent, i - 1, ps, pn), parent.children[i - 1], ps, pn)
  }

  /** The first i roots, each walked from the top. */
  function WalkForest(st: Snapshot, roots: seq<Node>, i: nat): Snapshot
    requires i <= |roots|
    decreases i
  {
    if i == 0 then st else Walk(WalkForest(st, roots, i - 1), roots[i - 1], [], [])
  }

  // ---------------------------------------------------------------------------
  // Lemmas: one visit
  // ---------------------------------------------------------------------------

  lemma ExtendsRefl(a: Tree)
    ensures Extends(a, a)
  {
  }

  lemma ExtendsTrans(a: Tree, b: Tree, c: Tree)
    requires Extends(a, b) && Extends(b, c)
    ensures Extends(a, c)
  {
  }

  lemma AddDistrict(tree: Tree, d: string, e: Entry)
    requires d !in tree
    ensures var t := tree[d := District(e, map[])];
      Extends(tree, t)
      && (forall path :: Present(t, path) <==> Present(tree, path) || path == [d])
      && Present(t, [d]) && EntryAt(t, [d]) == e
  {
    var t := tree[d := District(e, map[])];
    forall path | Present(tree, path)
      ensures Present(t, path) && EntryAt(t, path) == EntryAt(tree, path)
    {
      assert path[0] != d;
    }
    forall path ensures Present(t, path) <==> Present(tree, path) || path == [d] {
      if |path| == 1 && path[0] == d { assert path == [d]; }
    }
  }

  lemma AddCouncil(tree: Tree, d: string, c: string, e: Entry)
    requires d in tree && c !in tree[d].councils
    ensures var t := tree[d := tree[d].(councils := tree[d].councils[c := Council(e, map[])])];
      Extends(tree, t)
      && (forall path :: Present(t, path) <==> Present(tree, path) || path == [d, c])
      && Present(t, [d, c]) && EntryAt(t, [d, c]) == e
  {
    var t := tree[d := tree[d].(councils := tree[d].councils[c := Council(e, map[])])];
    forall path | Present(tree, path)
      ensures Present(t, path) && EntryAt(t, path) == EntryAt(tree, path)
    {
      if |path| >= 2 && path[0] == d { assert path[1] != c; }
    }
    forall path ensures Present(t, path) <==> Present(tree, path) || path == [d, c] {
      if |path| == 2 && path[0] == d && path[1] == c { assert path == [d, c]; }
      if |path| == 3 && path[0] == d && path[1] == c { assert t[d].councils[c].parishes == map[]; }
    }
  }

  lemma AddParish(tree: Tree, d: string, c: string, p: string, e: Entry)
    requires d in tree && c in tree[d].councils && p !in tree[d].councils[c].parishes
    ensures var council := tree[d].councils[c];
      var t := tree[d := tree[d].(councils := tree[d].councils[c := council.(parishes := council.parishes[p := e])])];
      Extends(tree, t)
      && (forall path :: Present(t, path) <==> Present(tree, path) || path == [d, c, p])
      && Present(t, [d, c, p]) && EntryAt(t, [d, c, p]) == e
  {
    var council := tree[d].councils[c];
    var t := tree[d := tree[d].(councils := tree[d].councils[c := council.(parishes := council.parishes[p := e])])];
    forall path | Present(tree, path)
      ensures Present(t, path) && EntryAt(t, path) == EntryAt(tree, path)
    {
      if |path| == 3 && path[0] == d && path[1] == c { assert path[2] != p; }
    }
    forall path ensures Present(t, path) <==> Present(tree, path) || path == [d, c, p] {
      if |path| == 3 && path[0] == d && path[1] == c && path[2] == p { assert path == [d, c, p]; }
    }
  }

  /** A visit keeps every entry present before it (first insert wins). It adds
      the node's own path when its parents are there and it is at most three
      levels deep, with a fresh entry when it was absent, and adds nothing
      else. */
  lemma VisitTree(st: Snapshot, ps: seq<string>, pn: seq<string>, slug: string, name: string)
    requires |ps| == |pn|
    ensures var r := Visit(st, ps, pn, slug, name);
      Extends(st.tree, r.tree)
      && forall path :: Present(r.tree, path) <==>
        Present(st.tree, path) || (|ps| < 3 && PathReady(st.tree, ps) && path == ps + [slug])
    ensures var r := Visit(st, ps, pn, slug, name);
      |ps| < 3 && PathReady(st.tree, ps) && !Present(st.tree, ps + [slug]) ==>
        Present(r.tree, ps + [slug]) && EntryAt(r.tree, ps + [slug]) == NewEntry(name)
  {
    var tree := st.tree;
    var r := Visit(st, ps, pn, slug, name);
    if |ps| == 0 {
      assert ps + [slug] == [slug];
      if slug in tree { ExtendsRefl(tree); assert Present(tree, [slug]); }
      else { AddDistrict(tree, slug, NewEntry(name)); }
    } else if |ps| == 1 {
      var d := ps[0];
      assert ps + [slug] == [d, slug];
      if d !in tree || slug in tree[d].councils { ExtendsRefl(tree); }
      else { AddCouncil(tree, d, slug, NewEntry(name)); }
    } else if |ps| == 2 {
      var d, c := ps[0], ps[1];
      assert ps + [slug] == [d, c, slug];
      if d !in tree || c !in tree[d].councils || slug in tree[d].councils[c].parishes { ExtendsRefl(tree); }
      else { AddParish(tree, d, c, slug, NewEntry(name)); }
    } else {
      ExtendsRefl(tree);
    }
  }

  /** The index is modified only when a new parish entry is created. */
  lemma VisitIndexQuiet(st: Snapshot, ps: seq<string>, pn: seq<string>, slug: string, name: string)
    requires |ps| == |pn|
    ensures Visit(st, ps, pn, slug, name).index != st.index ==>
      |ps| == 2 && PathReady(st.tree, ps) && !Present(st.tree, ps + [slug])
  {
    if |ps| == 2 {
      assert ps + [slug] == [ps[0], ps[1], slug];
    }
  }

  lemma ParishIndexFacts(idx: map<string, string>, de: Entry, ce: Entry, pe: Entry,
                         d: string, c: string, p: string, n0: string, n1: string, n2: string)
    ensures var r := ParishIndex(idx, de, ce, pe, d, c, p, n0, n1, n2);
      var own := pe.synonyms + RemoveEmpty(Combos(n0, n1, n2));
      (forall k :: k in r <==> k in idx || k in de.synonyms || k in ce.synonyms || k in own)
      && (forall k | k in own :: r[k] == d + "/" + c + "/" + p)
      && (forall k | k in ce.synonyms && k !in own :: r[k] == d + "/" + c)
      && (forall k | k in de.synonyms && k !in ce.synonyms && k !in own :: r[k] == d)
      && (forall k | k in idx && k !in de.synonyms && k !in ce.synonyms && k !in own :: r[k] == idx[k])
  {
    var full := d + "/" + c + "/" + p;
    var i1 := WriteAll(idx, de.synonyms, d);
    var i2 := WriteAll(i1, ce.synonyms, d + "/" + c);
    var i3 := WriteAll(i2, pe.synonyms, full);
    var ks := RemoveEmpty(Combos(n0, n1, n2));
    var own := pe.synonyms + ks;
    assert forall k :: k in own <==> k in pe.synonyms || k in ks;
  }

  /** Right after a new parish d/c/p: its aliases and the non-empty names of
      its path lead to d/c/p; of the rest, council aliases lead to d/c and
      district aliases to d (later writes win); every other alias keeps its
      value. */
  lemma VisitParishIndex(st: Snapshot, ps: seq<string>, pn: seq<string>, slug: string, name: string)
    requires |ps| == |pn| == 2 && PathReady(st.tree, ps) && !Present(st.tree, ps + [slug])
    ensures var r := Visit(st, ps, pn, slug, name);
      var d, c := ps[0], ps[1];
      var full := d + "/" + c + "/" + slug;
      var ds, cs := EntryAt(st.tree, [d]).synonyms, EntryAt(st.tree, [d, c]).synonyms;
      var own := Synonyms(name) + Combos(pn[0], pn[1], name);
      (forall k :: k in r.index <==> k in st.index || k in ds || k in cs || (k in own && k != ""))
      && (forall k | k in own && k != "" :: r.index[k] == full)
      && (forall k | k in cs && k !in own :: r.index[k] == d + "/" + c)
      && (forall k | k in ds && k !in cs && k !in own :: r.index[k] == d)
      && (forall k | k in st.index && k !in ds && k !in cs && k !in own :: r.index[k] == st.index[k])
  {
    var d, c := ps[0], ps[1];
    assert ps + [slug] == [d, c, slug];
    var council := st.tree[d].councils[c];
    assert EntryAt(st.tree, [d]) == st.tree[d].entry;
    assert EntryAt(st.tree, [d, c]) == council.entry;
    assert !Present(st.tree, [d, c, slug]);
    assert slug !in council.parishes;
    assert Visit(st, ps, pn, slug, name).index
      == ParishIndex(st.index, st.tree[d].entry, council.entry, NewEntry(name), d, c, slug, pn[0], pn[1], name);
    ParishIndexFacts(st.index, st.tree[d].entry, council.entry, NewEntry(name), d, c, slug, pn[0], pn[1], name);
    SynonymsDistinct(name);
    var own := Synonyms(name) + Combos(pn[0], pn[1], name);
    var own' := Synonyms(name) + RemoveEmpty(Combos(pn[0], pn[1], name));
    assert forall k :: k in own' <==> k in own && k != "";
  }

  /** The last write wins: the district's normalised name leads to the parish
      just created, not to the district. */
  lemma DistrictNameToParish(st: Snapshot, ps: seq<string>, pn: seq<string>, slug: string, name: string)
    requires |ps| == |pn| == 2 && PathReady(st.tree, ps) && !Present(st.tree, ps + [slug])
    requires Norm(pn[0]) != ""
    ensures var r := Visit(st, ps, pn, slug, name);
      Norm(pn[0]) in r.index && r.index[Norm(pn[0])] == ps[0] + "/" + ps[1] + "/" + slug
  {
    VisitParishIndex(st, ps, pn, slug, name);
    assert Norm(pn[0]) in Combos(pn[0], pn[1], name);
  }

  lemma PathStrings(d: string, c: string, p: string)
    ensures PathString([d]) == d
    ensures PathString([d, c]) == d + "/" + c
    ensures PathString([d, c, p]) == d + "/" + c + "/" + p
  {
    assert [d, c][..1] == [d];
    assert [d, c, p][..2] == [d, c];
  }

  /** A visit keeps every alias leading to a location of the tree. */
  lemma VisitSound(st: Snapshot, ps: seq<string>, pn: seq<string>, slug: string, name: string)
    requires |ps| == |pn|
    requires IndexSound(st)
    ensures IndexSound(Visit(st, ps, pn, slug, name))
  {
    var r := Visit(st, ps, pn, slug, name);
    VisitTree(st, ps, pn, slug, name);
    VisitIndexQuiet(st, ps, pn, slug, name);
    if r.index != st.index {
      var d, c := ps[0], ps[1];
      VisitParishIndex(st, ps, pn, slug, name);
      PathStrings(d, c, slug);
      assert Present(r.tree, [d]) && Present(r.tree, [d, c]) && Present(r.tree, [d, c, slug]);
      forall k | k in r.index
        ensures exists path :: Present(r.tree, path) && PathString(path) == r.index[k]
      {
        var own := Synonyms(name) + Combos(pn[0], pn[1], name);
        if k in own && k != "" {
          assert Present(r.tree, [d, c, slug]) && PathString([d, c, slug]) == r.index[k];
        } else if k in EntryAt(st.tree, [d, c]).synonyms {
          assert Present(r.tree, [d, c]) && PathString([d, c]) == r.index[k];
        } else if k in EntryAt(st.tree, [d]).synonyms {
          assert Present(r.tree, [d]) && PathString([d]) == r.index[k];
        } else {
          var path :| Present(st.tree, path) && PathString(path) == st.index[k];
          assert Present(r.tree, path) && PathString(path) == r.index[k];
        }
      }
    } else {
      forall k | k in r.index
        ensures exists path :: Present(r.tree, path) && PathString(path) == r.index[k]
      {
        var path :| Present(st.tree, path) && PathString(path) == st.index[k];
        assert Present(r.tree, path);
      }
    }
  }

  // ---------------------------------------------------------------------------
  // Lemmas: the whole walk
  // ---------------------------------------------------------------------------

  /** b keeps every entry of a, and its index differs from a's only if b
      holds a parish a lacks. */
  ghost predicate Grows(a: Snapshot, b: Snapshot) {
    Extends(a.tree, b.tree) && (NoNewParish(a.tree, b.tree) ==> b.index == a.index)
  }

  lemma GrowsRefl(a: Snapshot)
    ensures Grows(a, a)
  {
  }

  lemma GrowsTrans(a: Snapshot, b: Snapshot, c: Snapshot)
    requires Grows(a, b) && Grows(b, c)
    ensures Grows(a, c)
  {
    ExtendsTrans(a.tree, b.tree, c.tree);
    if NoNewParish(a.tree, c.tree) {
      assert NoNewParish(a.tree, b.tree) && NoNewParish(b.tree, c.tree);
    }
  }

  /** One visit grows the state: the index changes only with a new parish. */
  lemma VisitGrows(st: Snapshot, ps: seq<string>, pn: seq<string>, slug: string, name: string)
    requires |ps| == |pn|
    ensures Grows(st, Visit(st, ps, pn, slug, name))
  {
    VisitTree(st, ps, pn, slug, name);
    VisitIndexQuiet(st, ps, pn, slug, name);
    GrowsByParish(st, Visit(st, ps, pn, slug, name), ps + [slug]);
  }

  /** A step that keeps every entry and changes the index only by adding
      the parish p grows the state. */
  lemma GrowsByParish(a: Snapshot, b: Snapshot, p: seq<string>)
    requires Extends(a.tree, b.tree)
    requires b.index != a.index ==> |p| == 3 && Present(b.tree, p) && !Present(a.tree, p)
    ensures Grows(a, b)
  {
  }

  /** Across a whole walk, every entry present before is kept unchanged
      (first insert wins), and the index is left alone unless some new parish
      was created. */
  lemma {:induction false} WalkGrows(st: Snapshot, node: Node, ps: seq<string>, pn: seq<string>)
    requires |ps| == |pn|
    ensures Grows(st, Walk(st, node, ps, pn))
    decreases node, 1, 0
  {
    var slug := SlugOf(node);
    var name := NameOf(node, slug);
    var st1 := Visit(st, ps, pn, slug, name);
    VisitGrows(st, ps, pn, slug, name);
    WalkChildrenGrows(st1, node, |node.children|, ps + [slug], pn + [name]);
    WalkUnfold(st, node, ps, pn);
    GrowsTrans(st, st1, Walk(st, node, ps, pn));
  }

  lemma {:induction false} WalkChildrenGrows(st: Snapshot, parent: Node, i: nat, ps: seq<string>, pn: seq<string>)
    requires i <= |parent.children| && |ps| == |pn|
    ensures Grows(st, WalkChildren(st, parent, i, ps, pn))
    decreases parent, 0, i
  {
    if i == 0 {
      GrowsRefl(st);
    } else {
      var st1 := WalkChildren(st, parent, i - 1, ps, pn);
      WalkChildrenGrows(st, parent, i - 1, ps, pn);
      WalkGrows(st1, parent.children[i - 1], ps, pn);
      WalkChildrenNext(st, parent, i - 1, ps, pn);
      GrowsTrans(st, st1, WalkChildren(st, parent, i, ps, pn));
    }
  }

  /** A node three or more levels deep adds no entry, and neither does any
      node below it, though all of them are visited. */
  lemma {:induction false} DeepWalk(st: Snapshot, node: Node, ps: seq<string>, pn: seq<string>)
    requires |ps| == |pn| && |ps| >= 3
    ensures Walk(st, node, ps, pn) == st
    decreases node, 1, 0
  {
    var slug := SlugOf(node);
    DeepWalkChildren(st, node, |node.children|, ps + [slug], pn + [NameOf(node, slug)]);
  }

  lemma {:induction false} DeepWalkChildren(st: Snapshot, parent: Node, i: nat, ps: seq<string>, pn: seq<string>)
    requires i <= |parent.children| && |ps| == |pn| && |ps| >= 3
    ensures WalkChildren(st, parent, i, ps, pn) == st
    decreases parent, 0, i
  {
    if i > 0 {
      DeepWalkChildren(st, parent, i - 1, ps, pn);
      assert parent.children[i - 1] in parent.children;
      DeepWalk(st, parent.children[i - 1], ps, pn);
    }
  }

  /** Every alias in the index leads to a location of the tree, before and
      after a walk. */
  lemma {:induction false} WalkSound(st: Snapshot, node: Node, ps: seq<string>, pn: seq<string>)
    requires |ps| == |pn| && IndexSound(st)
    ensures IndexSound(Walk(st, node, ps, pn))
    decreases node, 1, 0
  {
    var slug := SlugOf(node);
    var name := NameOf(node, slug);
    VisitSound(st, ps, pn, slug, name);
    WalkChildrenSound(Visit(st, ps, pn, slug, name), node, |node.children|, ps + [slug], pn + [name]);
  }

  lemma {:induction false} WalkChildrenSound(st: Snapshot, parent: Node, i: nat, ps: seq<string>, pn: seq<string>)
    requires i <= |parent.children| && |ps| == |pn| && IndexSound(st)
    ensures IndexSound(WalkChildren(st, parent, i, ps, pn))
    decreases parent, 0, i
  {
    if i > 0 {
      WalkChildrenSound(st, parent, i - 1, ps, pn);
      assert parent.children[i - 1] in parent.children;
      WalkSound(WalkChildren(st, parent, i - 1, ps, pn), parent.children[i - 1], ps, pn);
    }
  }

  /** After a walk whose parents are in place and that is at most three
      levels deep, the node has its entry: the one it found, or a fresh one
      under its own name. */
  lemma WalkOwnEntry(st: Snapshot, node: Node, ps: seq<string>, pn: seq<string>)
    requires |ps| == |pn| && |ps| < 3 && PathReady(st.tree, ps)
    ensures var r := Walk(st, node, ps, pn);
      var path := ps + [SlugOf(node)];
      Present(r.tree, path)
      && EntryAt(r.tree, path) == if Present(st.tree, path) then EntryAt(st.tree, path)
                                  else NewEntry(NameOf(node, SlugOf(node)))
  {
    var slug := SlugOf(node);
    var name := NameOf(node, slug);
    var st1 := Visit(st, ps, pn, slug, name);
    var path := ps + [slug];
    VisitTree(st, ps, pn, slug, name);
    WalkChildrenGrows(st1, node, |node.children|, path, pn + [name]);
    WalkUnfold(st, node, ps, pn);
    ExtendsAt(st1.tree, Walk(st, node, ps, pn).tree, path);
  }

  lemma ExtendsAt(a: Tree, b: Tree, path: seq<string>)
    requires Extends(a, b) && Present(a, path)
    ensures Present(b, path) && EntryAt(b, path) == EntryAt(a, path)
  {
  }

  /** Building from nothing: every alias of the result leads to a location. */
  lemma {:induction false} ForestSound(roots: seq<Node>, i: nat)
    requires i <= |roots|
    ensures IndexSound(WalkForest(Empty, roots, i))
  {
    if i > 0 {
      ForestSound(roots, i - 1);
      WalkSound(WalkForest(Empty, roots, i - 1), roots[i - 1], [], []);
    }
  }

  lemma ExtendsReady(a: Tree, b: Tree, ps: seq<string>)
    requires Extends(a, b) && PathReady(a, ps)
    ensures PathReady(b, ps)
  {
    if |ps| >= 1 {
      assert Present(a, [ps[0]]);
      if |ps| >= 2 { assert Present(a, [ps[0], ps[1]]); }
    }
  }

  /** The children of a visited node find their parents in place. */
  lemma VisitReady(st: Snapshot, ps: seq<string>, pn: seq<string>, slug: string, name: string)
    requires |ps| == |pn| && PathReady(st.tree, ps)
    ensures PathReady(Visit(st, ps, pn, slug, name).tree, ps + [slug])
  {
    var r := Visit(st, ps, pn, slug, name);
    VisitTree(st, ps, pn, slug, name);
    ExtendsReady(st.tree, r.tree, ps);
    if |ps| == 0 {
      assert Present(r.tree, ps + [slug]) && ps + [slug] == [slug];
    } else if |ps| == 1 {
      assert Present(r.tree, ps + [slug]) && ps + [slug] == [ps[0], slug];
    }
  }

  lemma WalkUnfold(st: Snapshot, node: Node, ps: seq<string>, pn: seq<string>)
    requires |ps| == |pn|
    ensures var slug := SlugOf(node);
      var name := NameOf(node, slug);
      Walk(st, node, ps, pn)
        == WalkChildren(Visit(st, ps, pn, slug, name), node, |node.children|, ps + [slug], pn + [name])
  {
  }

  lemma WalkChildrenNext(st: Snapshot, parent: Node, i: nat, ps: seq<string>, pn: seq<string>)
    requires i < |parent.children| && |ps| == |pn|
    ensures WalkChildren(st, parent, i + 1, ps, pn)
      == Walk(WalkChildren(st, parent, i, ps, pn), parent.children[i], ps, pn)
  {
  }

  lemma WalkForestNext(st: Snapshot, roots: seq<Node>, i: nat)
    requires i < |roots|
    ensures WalkForest(st, roots, i + 1) == Walk(WalkForest(st, roots, i), roots[i], [], [])
  {
  }

  /** After walking child i, the first i + 1 children are walked, and the
      parents of the next child are still in place. */
  lemma ChildWalked(st: Snapshot, before: Snapshot, after: Snapshot, parent: Node, i: nat,
                    ps: seq<string>, pn: seq<string>)
    requires i < |parent.children| && |ps| == |pn|
    requires before == WalkChildren(st, parent, i, ps, pn) && PathReady(before.tree, ps)
    requires after == Walk(before, parent.children[i], ps, pn)
    ensures after == WalkChildren(st, parent, i + 1, ps, pn) && PathReady(after.tree, ps)
  {
    WalkGrows(before, parent.children[i], ps, pn);
    ExtendsReady(before.tree, after.tree, ps);
    WalkChildrenNext(st, parent, i, ps, pn);
  }

  // ---------------------------------------------------------------------------
  // The mutable state traverse works on
  // ---------------------------------------------------------------------------

  /** The location tree and the alias index that traverse fills in place. */
  class Mapper {
    var tree: Tree
    var index: map<string, string>

    constructor ()
      ensures tree == map[] && index == map[]
    {
      tree := map[];
      index := map[];
    }

    function State(): Snapshot
      reads this
    {
      Snapshot(tree, index)
    }

    /** main.js:75-77: makes every key in turn point to v, in place. */
    method Assign(keys: seq<string>, v: string)
      modifies this
      ensures tree == old(tree)
      ensures index == WriteAll(old(index), keys, v)
    {
      var i := 0;
      while i < |keys|
        invariant 0 <= i <= |keys|
        invariant tree == old(tree)
        invariant index == WriteAll(old(index), keys[..i], v)
      {
        WriteAllStep(old(index), keys, i, v);
        index := index[keys[i] := v];
        i := i + 1;
      }
      assert keys[..i] == keys;
    }

    /** main.js:85: makes every non-empty key in turn point to v, in place. */
    method AssignNonEmpty(keys: seq<string>, v: string)
      modifies this
      ensures tree == old(tree)
      ensures index == WriteAll(old(index), RemoveEmpty(keys), v)
    {
      var i := 0;
      while i < |keys|
        invariant 0 <= i <= |keys|
        invariant tree == old(tree)
        invariant index == WriteAll(old(index), RemoveEmpty(keys[..i]), v)
      {
        WriteNonEmptyStep(old(index), keys, i, v);
        if keys[i] != "" {
          index := index[keys[i] := v];
        }
        i := i + 1;
      }
      assert keys[..i] == keys;
    }

    /** main.js:70-86: a new parish d/c/slug and its index writes. */
    method AddParish(ps: seq<string>, pn: seq<string>, slug: string, name: string)
      requires |ps| == |pn| == 2 && PathReady(tree, ps)
      requires slug !in tree[ps[0]].councils[ps[1]].parishes
      modifies this
      ensures State() == Visit(old(State()), ps, pn, slug, name)
    {
      var d, c := ps[0], ps[1];
      var syns := SynonymsFromName(name);
      var council := tree[d].councils[c];
      ghost var de, ce := tree[d].entry, council.entry;
      tree := tree[d := tree[d].(councils := tree[d].councils[c := council.(parishes := council.parishes[slug := Entry(name, syns)])])];
      ghost var tree' := tree;
      var full := d + "/" + c + "/" + slug;
      Assign(tree[d].entry.synonyms, d);
      Assign(tree[d].councils[c].entry.synonyms, d + "/" + c);
      Assign(tree[d].councils[c].parishes[slug].synonyms, full);
      var names := pn + [name];
      AssignNonEmpty([Norm(names[0]), Norm(names[0] + " " + names[1]), Norm(names[0] + " " + names[1] + " " + names[2])], full);
      assert names[0] == pn[0] && names[1] == pn[1] && names[2] == name;
      assert tree == tree';
      assert index == ParishIndex(old(index), de, ce, NewEntry(name), d, c, slug, pn[0], pn[1], name);
    }

    /** main.js:49-87: the node's slug and name, and its entry when
        it is new at its level. */
    method VisitNode(node: Node, ps: seq<string>, pn: seq<string>) returns (slug: string, name: string)
      requires |ps| == |pn| && PathReady(tree, ps)
      modifies this
      ensures slug == SlugOf(node) && name == NameOf(node, slug)
      ensures State() == Visit(old(State()), ps, pn, slug, name)
    {
      slug := SlugOf(node);
      name := NameOf(node, slug);
      if |ps| == 0 {
        if slug !in tree {
          var syns := SynonymsFromName(name);
          tree := tree[slug := District(Entry(name, syns), map[])];
        }
      } else if |ps| == 1 {
        var d := ps[0];
        if slug !in tree[d].councils {
          var syns := SynonymsFromName(name);
          tree := tree[d := tree[d].(councils := tree[d].councils[slug := Council(Entry(name, syns), map[])])];
        }
      } else if |ps| == 2 {
        if slug !in tree[ps[0]].councils[ps[1]].parishes {
          AddParish(ps, pn, slug, name);
        }
      }
    }

    /** traverse(node, ps, pn, tree, index) */
    method Traverse(node: Node, ps: seq<string>, pn: seq<string>)
      requires |ps| == |pn| && PathReady(tree, ps)
      modifies this
      ensures State() == Walk(old(State()), node, ps, pn)
      decreases node, 1
    {
      var slug, name := VisitNode(node, ps, pn);
      VisitReady(old(State()), ps, pn, slug, name);
      TraverseChildren(node, ps + [slug], pn + [name]);
      WalkUnfold(old(State()), node, ps, pn);
    }

    /** main.js:89-93: the children, in order, one level down. */
    method TraverseChildren(parent: Node, ps: seq<string>, pn: seq<string>)
      requires |ps| == |pn| && PathReady(tree, ps)
      modifies this
      ensures State() == WalkChildren(old(State()), parent, |parent.children|, ps, pn)
      decreases parent, 0
    {
      var children := parent.children;
      var i := 0;
      while i < |children|
        invariant 0 <= i <= |children|
        invariant State() == WalkChildren(old(State()), parent, i, ps, pn)
        invariant PathReady(tree, ps)
      {
        ghost var before := State();
        assert children[i] in parent.children;
        Traverse(children[i], ps, pn);
        ChildWalked(old(State()), before, State(), parent, i, ps, pn);
        i := i + 1;
      }
    }

    /** The loop over the roots of the forest, each walked from the top. */
    method TraverseRoots(roots: seq<Node>)
      modifies this
      ensures State() == WalkForest(old(State()), roots, |roots|)
    {
      var i := 0;
      while i < |roots|
        invariant 0 <= i <= |roots|
        invariant State() == WalkForest(old(State()), roots, i)
      {
        Traverse(roots[i], [], []);
        WalkForestNext(old(State()), roots, i);
        i := i + 1;
      }
    }
  }
}
