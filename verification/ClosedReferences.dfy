/** Closed-graph resolution of digest-pinned references: a depth-bounded search
    over documents, and what an empty list of findings means. */
module ClosedReferences {
  import opened CodeUnits
  import opened Json
  import opened References

  datatype Document = Document(logicalUri: Text, bytes: Bytes, schema: Value)

  /** A finding with its code and the URI or reference it is about. */
  datatype Finding = Finding(code: Code, subject: Text)

  function Syntax(uri: Text): seq<Finding> {
    match SyntaxFinding(uri)
    case Some(code) => [Finding(code, uri)]
    case None => []
  }

  // ---- indexing the documents ----

  /** sha gives the sha256: wire digest of bytes. */
  function RootFindings(sha: Bytes -> Text, d: Document): seq<Finding> {
    Syntax(d.logicalUri) +
    match DeclaredDigest(d.logicalUri)
    case Some(declared) => if declared != sha(d.bytes) then [Finding(Ref004, d.logicalUri)] else []
    case None => []
  }

  /** The first document of each URI. */
  function Index(roots: seq<Document>): map<Text, Document> {
    if roots == [] then map[]
    else
      var d := roots[|roots| - 1];
      var earlier := Index(roots[..|roots| - 1]);
      if d.logicalUri in earlier then earlier else earlier[d.logicalUri := d]
  }

  function IndexFindings(sha: Bytes -> Text, roots: seq<Document>): seq<Finding> {
    if roots == [] then []
    else
      var d := roots[|roots| - 1];
      var front := roots[..|roots| - 1];
      IndexFindings(sha, front) + RootFindings(sha, d) + (if d.logicalUri in Index(front) then [Finding(Ref009, d.logicalUri)] else [])
  }

  // ---- the search ----

  datatype Graph = Graph(byUri: map<Text, Document>, sha: Bytes -> Text, maximumDepth: int)

  /** What is wrong with a reference before it is followed. */
  function ReferenceFault(g: Graph, ref: Text): seq<Finding> {
    if SyntaxFinding(ref).Some? then Syntax(ref)
    else if WithoutFragment(ref) !in g.byUri then [Finding(Ref005, ref)]
    else if DeclaredDigest(WithoutFragment(ref)) != Some(g.sha(g.byUri[WithoutFragment(ref)].bytes)) then [Finding(Ref004, ref)]
    else []
  }

  /** Findings of the search from a document, with the URIs on the way to it. */
  function Visit(g: Graph, d: Document, stack: seq<Text>, depth: int): seq<Finding>
    decreases if depth > g.maximumDepth then 0 else g.maximumDepth - depth + 1, 1, 0
  {
    if depth > g.maximumDepth then [Finding(Ref006, d.logicalUri)]
    else VisitAll(g, ExternalRefs(d.schema), stack, depth)
  }

  function VisitAll(g: Graph, refs: seq<Text>, stack: seq<Text>, depth: int): seq<Finding>
    requires depth <= g.maximumDepth
    decreases g.maximumDepth - depth + 1, 0, |refs|
  {
    if refs == [] then []
    else VisitRef(g, refs[0], stack, depth) + VisitAll(g, refs[1..], stack, depth)
  }

  function VisitRef(g: Graph, ref: Text, stack: seq<Text>, depth: int): seq<Finding>
    requires depth <= g.maximumDepth
    decreases g.maximumDepth - depth + 1, 0, 0
  {
    if ReferenceFault(g, ref) != [] then ReferenceFault(g, ref)
    else
      var uri := WithoutFragment(ref);
      var target := g.byUri[uri];
      if target.logicalUri in stack then [Finding(Ref007, ref)]
      else Visit(g, target, stack + [target.logicalUri], depth + 1)
  }

  /** The searches from every indexed document. */
  function VisitRoots(g: Graph, uris: seq<Text>): seq<Finding>
    requires forall i :: 0 <= i < |uris| ==> uris[i] in g.byUri
  {
    if uris == [] then [] else Visit(g, g.byUri[uris[0]], [g.byUri[uris[0]].logicalUri], 0) + VisitRoots(g, uris[1..])
  }

  lemma VisitAllStep(g: Graph, refs: seq<Text>, i: nat, stack: seq<Text>, depth: int)
    requires depth <= g.maximumDepth && i < |refs|
    ensures VisitAll(g, refs[i..], stack, depth) == VisitRef(g, refs[i], stack, depth) + VisitAll(g, refs[i + 1..], stack, depth)
  {
    hide VisitRef;
    assert refs[i..][1..] == refs[i + 1..];
  }

  lemma VisitAllDone(g: Graph, stack: seq<Text>, depth: int)
    requires depth <= g.maximumDepth
    ensures VisitAll(g, [], stack, depth) == []
  {}

  // ---- the search as the code runs it ----

  class Resolver {
    const graph: Graph
    var findings: seq<Finding>

    constructor (graph: Graph, findings: seq<Finding>)
      ensures this.graph == graph && this.findings == findings
    {
      this.graph, this.findings := graph, findings;
    }

    /** One call of visit: it only appends to the findings. */
    method VisitDocument(document: Document, stack: seq<Text>, depth: int)
      modifies this`findings
      ensures findings == old(findings) + Visit(graph, document, stack, depth)
      decreases if depth > graph.maximumDepth then 0 else graph.maximumDepth - depth + 1, 1
    {
      hide VisitRef, VisitAll, ExternalRefs;
      if depth > graph.maximumDepth {
        findings := findings + [Finding(Ref006, document.logicalUri)];
        return;
      }
      var refs := FindExternalRefs(document.schema, []);
      var i := 0;
      assert refs[0..] == refs;
      while i < |refs|
        invariant 0 <= i <= |refs|
        invariant old(findings) + VisitAll(graph, refs, stack, depth) == findings + VisitAll(graph, refs[i..], stack, depth)
        decreases |refs| - i
      {
        VisitAllStep(graph, refs, i, stack, depth);
        VisitReference(refs[i], stack, depth);
        i := i + 1;
      }
      assert refs[i..] == [];
      VisitAllDone(graph, stack, depth);
    }

    /** One turn of the loop of visit. */
    method VisitReference(ref: Text, stack: seq<Text>, depth: int)
      requires depth <= graph.maximumDepth
      modifies this`findings
      ensures findings == old(findings) + VisitRef(graph, ref, stack, depth)
      decreases graph.maximumDepth - depth + 1, 0
    {
      hide SyntaxFinding, WithoutFragment, DigestFrom, Visit;
      var syntax := SyntaxFinding(ref);
      if syntax.Some? {
        findings := findings + [Finding(syntax.value, ref)];
        return;
      }
      var uri := WithoutFragment(ref);
      if uri !in graph.byUri {
        findings := findings + [Finding(Ref005, ref)];
        return;
      }
      var target := graph.byUri[uri];
      if DeclaredDigest(uri) != Some(graph.sha(target.bytes)) {
        findings := findings + [Finding(Ref004, ref)];
        return;
      }
      if target.logicalUri in stack {
        findings := findings + [Finding(Ref007, ref)];
        return;
      }
      VisitDocument(target, stack + [target.logicalUri], depth + 1);
    }
  }

  lemma IndexStep(sha: Bytes -> Text, roots: seq<Document>, i: nat)
    requires i < |roots|
    ensures var d, front := roots[i], roots[..i];
            && Index(roots[..i + 1]) == (if d.logicalUri in Index(front) then Index(front) else Index(front)[d.logicalUri := d])
            && IndexFindings(sha, roots[..i + 1]) ==
               IndexFindings(sha, front) + RootFindings(sha, d) + if d.logicalUri in Index(front) then [Finding(Ref009, d.logicalUri)] else []
  {
    assert roots[..i + 1][..i] == roots[..i];
  }

  lemma IndexNone(sha: Bytes -> Text)
    ensures Index([]) == map[] && IndexFindings(sha, []) == []
  {}

  /** The first loop: the index of the documents and what is wrong with their URIs. */
  method IndexRoots(roots: seq<Document>, sha: Bytes -> Text) returns (byUri: map<Text, Document>, findings: seq<Finding>)
    ensures byUri == Index(roots) && findings == IndexFindings(sha, roots)
  {
    hide SyntaxFinding, DigestFrom, Index, IndexFindings;
    findings := [];
    byUri := map[];
    var i := 0;
    IndexNone(sha);
    assert roots[..0] == [];
    while i < |roots|
      invariant 0 <= i <= |roots|
      invariant byUri == Index(roots[..i]) && findings == IndexFindings(sha, roots[..i])
    {
      var document := roots[i];
      IndexStep(sha, roots, i);
      ghost var before := findings;
      var syntax := SyntaxFinding(document.logicalUri);
      if syntax.Some? {
        findings := findings + [Finding(syntax.value, document.logicalUri)];
      }
      var declared := DeclaredDigest(document.logicalUri);
      if declared.Some? && declared.value != sha(document.bytes) {
        findings := findings + [Finding(Ref004, document.logicalUri)];
      }
      assert findings == before + RootFindings(sha, document);
      if document.logicalUri in byUri {
        findings := findings + [Finding(Ref009, document.logicalUri)];
      } else {
        byUri := byUri[document.logicalUri := document];
      }
      i := i + 1;
    }
    assert roots[..i] == roots;
  }

  lemma {:induction false} VisitRootsSnoc(g: Graph, uris: seq<Text>, uri: Text)
    requires (forall i :: 0 <= i < |uris| ==> uris[i] in g.byUri) && uri in g.byUri
    ensures VisitRoots(g, uris + [uri]) == VisitRoots(g, uris) + Visit(g, g.byUri[uri], [g.byUri[uri].logicalUri], 0)
    decreases |uris|
  {
    if uris == [] {
      assert [uri][1..] == [];
    } else {
      VisitRootsSnoc(g, uris[1..], uri);
      assert (uris + [uri])[1..] == uris[1..] + [uri];
    }
  }

  // ---- the graph ----

  predicate Edge(g: Graph, u: Text, v: Text) {
    && u in g.byUri && v in g.byUri
    && exists i :: 0 <= i < |ExternalRefs(g.byUri[u].schema)| && WithoutFragment(ExternalRefs(g.byUri[u].schema)[i]) == v
  }

  /** A walk along references; its edges are one fewer than its documents. */
  predicate Walk(g: Graph, p: seq<Text>) {
    && p != [] && (forall i :: 0 <= i < |p| ==> p[i] in g.byUri)
    && forall i :: 0 <= i < |p| - 1 ==> Edge(g, p[i], p[i + 1])
  }

  /** Each reference of the document is well formed, and pins a document of the graph. */
  predicate RefsSound(g: Graph, d: Document) {
    forall i :: 0 <= i < |ExternalRefs(d.schema)| ==> ReferenceFault(g, ExternalRefs(d.schema)[i]) == []
  }

  predicate Keyed(g: Graph) { forall u :: u in g.byUri ==> g.byUri[u].logicalUri == u }

  ghost predicate Bounded(g: Graph) { forall p :: Walk(g, p) ==> |p| - 1 <= g.maximumDepth }

  ghost predicate Acyclic(g: Graph) {
    forall p :: Walk(g, p) ==> forall i, j :: 0 <= i < j < |p| ==> p[i] != p[j]
  }

  lemma {:induction false} VisitAllEmpty(g: Graph, refs: seq<Text>, stack: seq<Text>, depth: int)
    requires depth <= g.maximumDepth
    ensures VisitAll(g, refs, stack, depth) == [] <==> forall i :: 0 <= i < |refs| ==> VisitRef(g, refs[i], stack, depth) == []
    decreases |refs|
  {
    if refs != [] {
      VisitAllEmpty(g, refs[1..], stack, depth);
      hide VisitRef;
      if forall i :: 0 <= i < |refs| ==> VisitRef(g, refs[i], stack, depth) == [] {
        forall i | 0 <= i < |refs[1..]| ensures VisitRef(g, refs[1..][i], stack, depth) == [] { assert refs[1..][i] == refs[i + 1]; }
      }
      if VisitRef(g, refs[0], stack, depth) == [] && (forall i :: 0 <= i < |refs[1..]| ==> VisitRef(g, refs[1..][i], stack, depth) == []) {
        forall i | 0 <= i < |refs| ensures VisitRef(g, refs[i], stack, depth) == [] {
          if i > 0 { assert refs[i] == refs[1..][i - 1]; }
        }
      }
    }
  }

  lemma WalkSuffix(g: Graph, p: seq<Text>, i: nat)
    requires Walk(g, p) && i < |p|
    ensures Walk(g, p[i..])
  {
    var rest := p[i..];
    forall k | 0 <= k < |rest| - 1 ensures Edge(g, rest[k], rest[k + 1]) { assert Edge(g, p[i + k], p[i + k + 1]); }
  }

  lemma WalkExtends(g: Graph, p: seq<Text>, v: Text)
    requires Walk(g, p) && Edge(g, p[|p| - 1], v)
    ensures Walk(g, p + [v])
  {
    var longer := p + [v];
    forall k | 0 <= k < |longer| - 1 ensures Edge(g, longer[k], longer[k + 1]) {
      if k < |p| - 1 { assert Edge(g, p[k], p[k + 1]); }
    }
  }

  /** The first step of a walk is a reference of its first document. */
  lemma WalkStep(g: Graph, p: seq<Text>) returns (i: nat)
    requires Walk(g, p) && |p| > 1
    ensures p[0] in g.byUri && p[1] in g.byUri
    ensures i < |ExternalRefs(g.byUri[p[0]].schema)| && WithoutFragment(ExternalRefs(g.byUri[p[0]].schema)[i]) == p[1]
  {
    assert Edge(g, p[0], p[1]);
    i :| 0 <= i < |ExternalRefs(g.byUri[p[0]].schema)| && WithoutFragment(ExternalRefs(g.byUri[p[0]].schema)[i]) == p[1];
  }

  /** A reference that is followed without findings. */
  lemma CleanReference(g: Graph, ref: Text, stack: seq<Text>, depth: int)
    requires Keyed(g) && depth <= g.maximumDepth && VisitRef(g, ref, stack, depth) == []
    ensures var v := WithoutFragment(ref);
            && ReferenceFault(g, ref) == [] && v in g.byUri && v !in stack
            && Visit(g, g.byUri[v], stack + [v], depth + 1) == []
  {
    hide SyntaxFinding, WithoutFragment, DigestFrom, Visit;
  }

  lemma CleanRefs(g: Graph, u: Text, stack: seq<Text>, depth: int)
    requires Keyed(g) && u in g.byUri && Visit(g, g.byUri[u], stack, depth) == []
    ensures depth <= g.maximumDepth && RefsSound(g, g.byUri[u])
    ensures var refs := ExternalRefs(g.byUri[u].schema);
            forall i :: 0 <= i < |refs| ==> VisitRef(g, refs[i], stack, depth) == []
  {
    var refs := ExternalRefs(g.byUri[u].schema);
    assert depth <= g.maximumDepth && VisitAll(g, refs, stack, depth) == [];
    VisitAllEmpty(g, refs, stack, depth);
    hide VisitRef, VisitAll, Visit, ReferenceFault, ExternalRefs;
    forall i | 0 <= i < |refs| ensures ReferenceFault(g, refs[i]) == [] { CleanReference(g, refs[i], stack, depth); }
  }

  /** The search goes on along a walk, to a document not on the way so far. */
  lemma CleanStep(g: Graph, u: Text, stack: seq<Text>, depth: int, p: seq<Text>)
    requires Keyed(g) && u in g.byUri && Visit(g, g.byUri[u], stack, depth) == []
    requires Walk(g, p) && p[0] == u && |p| > 1
    ensures p[1] in g.byUri && p[1] !in stack && Visit(g, g.byUri[p[1]], stack + [p[1]], depth + 1) == []
    ensures Walk(g, p[1..]) && p[1..][0] == p[1]
  {
    CleanRefs(g, u, stack, depth);
    var i := WalkStep(g, p);
    WalkSuffix(g, p, 1);
    hide VisitRef, Visit, RefsSound, Walk, WithoutFragment, ExternalRefs, Keyed;
    CleanReference(g, ExternalRefs(g.byUri[u].schema)[i], stack, depth);
  }

  lemma NotOnTheWay<T>(p: seq<T>, stack: seq<T>)
    requires |p| > 1 && p[1] !in stack && forall i :: 1 <= i < |p[1..]| ==> p[1..][i] !in stack + [p[1]]
    ensures forall k :: 1 <= k < |p| ==> p[k] !in stack
  {
    forall k | 1 <= k < |p| ensures p[k] !in stack {
      if k > 1 { assert p[1..][k - 1] !in stack + [p[1]]; }
    }
  }

  /** A search without findings: the references of its document are sound, and
      no walk from there is too long or comes back to the way taken so far. */
  lemma {:induction false} CleanVisit(g: Graph, u: Text, stack: seq<Text>, depth: int, p: seq<Text>)
    requires Keyed(g) && u in g.byUri && Visit(g, g.byUri[u], stack, depth) == []
    requires Walk(g, p) && p[0] == u
    ensures RefsSound(g, g.byUri[u]) && depth + |p| - 1 <= g.maximumDepth
    ensures forall i :: 1 <= i < |p| ==> p[i] !in stack
    decreases |p|
  {
    CleanRefs(g, u, stack, depth);
    if |p| > 1 {
      CleanStep(g, u, stack, depth, p);
      hide VisitRef, Visit, RefsSound, Walk, ExternalRefs, Keyed;
      CleanVisit(g, p[1], stack + [p[1]], depth + 1, p[1..]);
      NotOnTheWay(p, stack);
    }
  }

  /** A sound reference to a document not on the way adds no finding of its own. */
  lemma SoundReference(g: Graph, ref: Text, stack: seq<Text>, depth: int)
    requires Keyed(g) && depth <= g.maximumDepth && ReferenceFault(g, ref) == []
    ensures var v := WithoutFragment(ref);
            v in g.byUri && (v !in stack ==> VisitRef(g, ref, stack, depth) == Visit(g, g.byUri[v], stack + [v], depth + 1))
  {
    hide SyntaxFinding, WithoutFragment, DigestFrom, Visit;
  }

  /** In a sound, bounded, acyclic graph the search finds nothing. */
  lemma {:induction false} SoundVisit(g: Graph, stack: seq<Text>)
    requires Keyed(g) && Walk(g, stack) && Bounded(g) && Acyclic(g)
    requires forall u :: u in g.byUri ==> RefsSound(g, g.byUri[u])
    ensures Visit(g, g.byUri[stack[|stack| - 1]], stack, |stack| - 1) == []
    decreases g.maximumDepth + 1 - |stack|
  {
    var u := stack[|stack| - 1];
    var depth := |stack| - 1;
    assert depth <= g.maximumDepth;
    var refs := ExternalRefs(g.byUri[u].schema);
    forall i | 0 <= i < |refs| ensures VisitRef(g, refs[i], stack, depth) == [] {
      SoundStep(g, stack, i);
    }
    VisitAllEmpty(g, refs, stack, depth);
  }

  /** A reference leads on along the walk, to a document not on it yet. */
  lemma StepsOn(g: Graph, stack: seq<Text>, i: nat)
    requires Keyed(g) && Walk(g, stack) && Bounded(g) && Acyclic(g)
    requires var d := g.byUri[stack[|stack| - 1]]; i < |ExternalRefs(d.schema)| && RefsSound(g, d)
    ensures var ref := ExternalRefs(g.byUri[stack[|stack| - 1]].schema)[i];
            var v := WithoutFragment(ref);
            ReferenceFault(g, ref) == [] && v !in stack && Walk(g, stack + [v]) && |stack| <= g.maximumDepth
  {
    var refs := ExternalRefs(g.byUri[stack[|stack| - 1]].schema);
    var v := WithoutFragment(refs[i]);
    hide WithoutFragment, ExternalRefs;
    assert ReferenceFault(g, refs[i]) == [];
    SoundReference(g, refs[i], stack, g.maximumDepth);
    hide ReferenceFault;
    assert Edge(g, stack[|stack| - 1], v);
    WalkExtends(g, stack, v);
    var longer := stack + [v];
    assert |longer| - 1 <= g.maximumDepth;
    forall k | 0 <= k < |stack| ensures stack[k] != v { assert longer[k] != longer[|stack|]; }
  }

  lemma {:induction false} SoundStep(g: Graph, stack: seq<Text>, i: nat)
    requires Keyed(g) && Walk(g, stack) && Bounded(g) && Acyclic(g) && |stack| - 1 <= g.maximumDepth
    requires forall u :: u in g.byUri ==> RefsSound(g, g.byUri[u])
    requires i < |ExternalRefs(g.byUri[stack[|stack| - 1]].schema)|
    ensures VisitRef(g, ExternalRefs(g.byUri[stack[|stack| - 1]].schema)[i], stack, |stack| - 1) == []
    decreases g.maximumDepth + 1 - |stack|, 0
  {
    var ref := ExternalRefs(g.byUri[stack[|stack| - 1]].schema)[i];
    var longer := stack + [WithoutFragment(ref)];
    hide VisitRef, Visit, ReferenceFault, Bounded, Acyclic, RefsSound, ExternalRefs, WithoutFragment, Edge;
    StepsOn(g, stack, i);
    assert longer[|longer| - 1] == WithoutFragment(ref);
    SoundReference(g, ref, stack, |stack| - 1);
    hide Walk;
    SoundVisit(g, longer);
  }

  lemma {:induction false} VisitRootsEmpty(g: Graph, uris: seq<Text>)
    requires forall i :: 0 <= i < |uris| ==> uris[i] in g.byUri
    ensures VisitRoots(g, uris) == [] <==>
            forall i :: 0 <= i < |uris| ==> Visit(g, g.byUri[uris[i]], [g.byUri[uris[i]].logicalUri], 0) == []
    decreases |uris|
  {
    if uris != [] {
      VisitRootsEmpty(g, uris[1..]);
      hide Visit;
      if forall i :: 0 <= i < |uris| ==> Visit(g, g.byUri[uris[i]], [g.byUri[uris[i]].logicalUri], 0) == [] {
        forall i | 0 <= i < |uris[1..]| ensures Visit(g, g.byUri[uris[1..][i]], [g.byUri[uris[1..][i]].logicalUri], 0) == [] {
          assert uris[1..][i] == uris[i + 1];
        }
      }
      if VisitRoots(g, uris) == [] {
        forall i | 0 <= i < |uris| ensures Visit(g, g.byUri[uris[i]], [g.byUri[uris[i]].logicalUri], 0) == [] {
          if i > 0 { assert uris[i] == uris[1..][i - 1]; }
        }
      }
    }
  }

  lemma CleanSearch(g: Graph)
    requires Keyed(g) && forall u :: u in g.byUri ==> Visit(g, g.byUri[u], [u], 0) == []
    ensures (forall u :: u in g.byUri ==> RefsSound(g, g.byUri[u])) && Bounded(g) && Acyclic(g)
  {
    hide Visit, RefsSound;
    forall u | u in g.byUri ensures RefsSound(g, g.byUri[u]) { CleanRefs(g, u, [u], 0); }
    forall p | Walk(g, p) ensures |p| - 1 <= g.maximumDepth { CleanVisit(g, p[0], [p[0]], 0, p); }
    forall p, i, j | Walk(g, p) && 0 <= i < j < |p| ensures p[i] != p[j] { CleanWalk(g, p, i, j); }
  }

  lemma CleanWalk(g: Graph, p: seq<Text>, i: int, j: int)
    requires Keyed(g) && (forall u :: u in g.byUri ==> Visit(g, g.byUri[u], [u], 0) == [])
    requires Walk(g, p) && 0 <= i < j < |p|
    ensures p[i] != p[j]
  {
    WalkSuffix(g, p, i);
    hide Visit, RefsSound;
    CleanVisit(g, p[i], [p[i]], 0, p[i..]);
    assert p[i..][j - i] !in [p[i]];
  }

  lemma SoundSearch(g: Graph, u: Text)
    requires Keyed(g) && u in g.byUri && (forall v :: v in g.byUri ==> RefsSound(g, g.byUri[v])) && Bounded(g) && Acyclic(g)
    ensures Visit(g, g.byUri[u], [u], 0) == []
  {
    hide Visit, RefsSound, Bounded, Acyclic;
    assert Walk(g, [u]);
    SoundVisit(g, [u]);
  }

  /** The searches find nothing exactly when every reference of every document
      is sound, no walk has more edges than the depth limit, and no walk meets a
      document twice. */
  lemma SearchExact(g: Graph, uris: seq<Text>)
    requires Keyed(g) && (forall u :: u in uris <==> u in g.byUri) && forall i :: 0 <= i < |uris| ==> uris[i] in g.byUri
    ensures VisitRoots(g, uris) == [] <==> (forall u :: u in g.byUri ==> RefsSound(g, g.byUri[u])) && Bounded(g) && Acyclic(g)
  {
    hide Visit, RefsSound, VisitRoots, Bounded, Acyclic;
    VisitRootsEmpty(g, uris);
    if VisitRoots(g, uris) == [] {
      forall u | u in g.byUri ensures Visit(g, g.byUri[u], [u], 0) == [] {
        assert u in uris;
        var i :| 0 <= i < |uris| && uris[i] == u;
        assert Visit(g, g.byUri[uris[i]], [g.byUri[uris[i]].logicalUri], 0) == [];
      }
      CleanSearch(g);
    }
    if (forall u :: u in g.byUri ==> RefsSound(g, g.byUri[u])) && Bounded(g) && Acyclic(g) {
      forall i | 0 <= i < |uris| ensures Visit(g, g.byUri[uris[i]], [g.byUri[uris[i]].logicalUri], 0) == [] {
        SoundSearch(g, uris[i]);
      }
    }
  }

  // ---- the whole resolution ----

  predicate UriSound(sha: Bytes -> Text, d: Document) {
    SyntaxFinding(d.logicalUri).None? && (DeclaredDigest(d.logicalUri).None? || DeclaredDigest(d.logicalUri) == Some(sha(d.bytes)))
  }

  predicate DistinctUris(roots: seq<Document>) {
    forall i, j :: 0 <= i < j < |roots| ==> roots[i].logicalUri != roots[j].logicalUri
  }

  lemma {:induction false} IndexExact(roots: seq<Document>)
    ensures Keyed(Graph(Index(roots), (b: Bytes) => [], 0))
    ensures forall u :: u in Index(roots) <==> exists i :: 0 <= i < |roots| && roots[i].logicalUri == u
    decreases |roots|
  {
    if roots != [] {
      var n := |roots| - 1;
      IndexExact(roots[..n]);
      forall u ensures u in Index(roots) <==> exists i :: 0 <= i < |roots| && roots[i].logicalUri == u {
        if u in Index(roots[..n]) {
          var i :| 0 <= i < n && roots[..n][i].logicalUri == u;
          assert roots[i].logicalUri == u;
        }
        if i :| 0 <= i < |roots| && roots[i].logicalUri == u {
          if i < n { assert roots[..n][i].logicalUri == u; }
        }
      }
    }
  }

  lemma RootFindingsExact(sha: Bytes -> Text, d: Document)
    ensures RootFindings(sha, d) == [] <==> UriSound(sha, d)
  {
    hide SyntaxFinding, DigestFrom;
  }

  /** Every logical URI is well formed and agrees with its own digest. */
  predicate UrisSound(sha: Bytes -> Text, roots: seq<Document>) { forall i :: 0 <= i < |roots| ==> UriSound(sha, roots[i]) }

  lemma {:induction false} IndexFindingsExact(sha: Bytes -> Text, roots: seq<Document>)
    ensures IndexFindings(sha, roots) == [] <==> UrisSound(sha, roots) && DistinctUris(roots)
    decreases |roots|
  {
    if roots != [] {
      var n := |roots| - 1;
      var front := roots[..n];
      IndexFindingsExact(sha, front);
      RootFindingsExact(sha, roots[n]);
      IndexExact(front);
      hide UriSound, RootFindings, Index;
      var repeated := roots[n].logicalUri in Index(front);
      DistinctSnoc(roots);
      assert repeated <==> exists i :: 0 <= i < n && front[i].logicalUri == roots[n].logicalUri;
      SoundSnoc(sha, roots);
      hide UrisSound, DistinctUris;
    }
  }

  lemma DistinctSnoc(roots: seq<Document>)
    requires roots != []
    ensures var front, d := roots[..|roots| - 1], roots[|roots| - 1];
            DistinctUris(roots) <==> DistinctUris(front) && !exists i :: 0 <= i < |front| && front[i].logicalUri == d.logicalUri
  {
    var front, d := roots[..|roots| - 1], roots[|roots| - 1];
    if DistinctUris(front) && !exists i :: 0 <= i < |front| && front[i].logicalUri == d.logicalUri {
      forall i, j | 0 <= i < j < |roots| ensures roots[i].logicalUri != roots[j].logicalUri {
        assert roots[i] == front[i];
        if j < |front| { assert roots[j] == front[j]; }
      }
    }
  }

  lemma SoundSnoc(sha: Bytes -> Text, roots: seq<Document>)
    requires roots != []
    ensures var front := roots[..|roots| - 1];
            UrisSound(sha, roots) <==> UrisSound(sha, front) && UriSound(sha, roots[|roots| - 1])
  {
    hide UriSound;
    var front := roots[..|roots| - 1];
    if UrisSound(sha, front) && UriSound(sha, roots[|roots| - 1]) {
      forall i | 0 <= i < |roots| ensures UriSound(sha, roots[i]) { if i < |front| { assert roots[i] == front[i]; } }
    }
  }

  /** Every logical URI is well formed, agrees with its own digest and names one
      document; every external reference is well formed and pins a document of
      the set by its digest; no walk along references has more edges than the
      depth limit; and no walk meets a document twice. */
  ghost predicate Closed(roots: seq<Document>, maximumDepth: int, sha: Bytes -> Text) {
    var g := Graph(Index(roots), sha, maximumDepth);
    && UrisSound(sha, roots) && DistinctUris(roots)
    && (forall u :: u in g.byUri ==> RefsSound(g, g.byUri[u])) && Bounded(g) && Acyclic(g)
  }

  /** resolveClosedReferences reports nothing exactly when the graph is closed. */
  lemma ResolutionExact(roots: seq<Document>, maximumDepth: int, sha: Bytes -> Text, order: seq<Text>)
    requires (forall u :: u in order <==> u in Index(roots)) && forall i :: 0 <= i < |order| ==> order[i] in Index(roots)
    ensures IndexFindings(sha, roots) + VisitRoots(Graph(Index(roots), sha, maximumDepth), order) == [] <==> Closed(roots, maximumDepth, sha)
  {
    hide VisitRoots, IndexFindings, UrisSound, RefsSound, Bounded, Acyclic, Index;
    IndexExact(roots);
    IndexFindingsExact(sha, roots);
    SearchExact(Graph(Index(roots), sha, maximumDepth), order);
  }

  /** resolveClosedReferences, its final sort of the findings aside. The keys of
      the index are taken in any order. */
  method ResolveClosedReferences(roots: seq<Document>, maximumDepth: int, sha: Bytes -> Text)
    returns (findings: seq<Finding>, order: seq<Text>)
    ensures (forall u :: u in order <==> u in Index(roots)) && forall i :: 0 <= i < |order| ==> order[i] in Index(roots)
    ensures findings == IndexFindings(sha, roots) + VisitRoots(Graph(Index(roots), sha, maximumDepth), order)
    ensures findings == [] <==> Closed(roots, maximumDepth, sha)
  {
    hide Index, IndexFindings, Visit, Closed;
    var byUri, indexed := IndexRoots(roots, sha);
    var graph := Graph(byUri, sha, maximumDepth);
    var resolver := new Resolver(graph, indexed);
    var remaining := byUri.Keys;
    order := [];
    while remaining != {}
      invariant remaining <= byUri.Keys && resolver.graph == graph
      invariant forall u :: u in order <==> u in byUri.Keys - remaining
      invariant forall i :: 0 <= i < |order| ==> order[i] in byUri
      invariant resolver.findings == indexed + VisitRoots(graph, order)
      decreases |remaining|
    {
      var uri :| uri in remaining;
      remaining := remaining - {uri};
      resolver.VisitDocument(byUri[uri], [byUri[uri].logicalUri], 0);
      VisitRootsSnoc(graph, order, uri);
      order := order + [uri];
    }
    findings := resolver.findings;
    ResolutionExact(roots, maximumDepth, sha, order);
  }
}
