/** The generator of the instance package: its reference reader
    (parseXsdReferences), which lists the include, import and redefine
    elements of one schema document, and its auto-resolve entry point,
    which only reads the direct references of the root schema and
    compiles nothing. Its two generateWithDependencies overloads are the
    same code as XjcGenerator's and are modelled there. */
module InstanceGenerator {
  import opened Wrappers
  import opened Paths
  import opened References

  /** The namespace the reader looks for the three elements in. */
  const XsdNamespace := "http://www.w3.org/2001/XMLSchema"

  /** One element of a parsed, namespace-aware document: its namespace URI
      (None when it has none), its local name and its attributes. A
      document is the elements below its root element, in document order
      (depth first, the order in which getElementsByTagNameNS lists them; the
      root element itself is not among them, as that call lists only
      descendants). */
  datatype Element = Element(namespace: Option<string>, localName: string, attributes: map<string, string>)

  /** Element.getAttribute: the value, or the empty string when the
      attribute is absent. */
  function Attribute(e: Element, name: string): string {
    if name in e.attributes then e.attributes[name] else ""
  }

  /** The tag each relation is recorded under. */
  function Tag(k: RefType): string {
    match k
    case Include => "include"
    case Import => "import"
    case Redefine => "redefine"
  }

  predicate IsXsd(e: Element, localName: string) {
    e.namespace == Some(XsdNamespace) && e.localName == localName
  }

  /** getElementsByTagNameNS(XsdNamespace, localName): the matching
      elements, in document order. */
  function ElementsNamed(doc: seq<Element>, localName: string): (es: seq<Element>)
    ensures |es| <= |doc|
    ensures forall e :: e in es <==> e in doc && IsXsd(e, localName)
  {
    if doc == [] then []
    else
      var last := doc[|doc| - 1];
      ElementsNamed(doc[..|doc| - 1], localName) + (if IsXsd(last, localName) then [last] else [])
  }

  function Location(e: Element): string {
    Attribute(e, "schemaLocation")
  }

  /** The reference one element of relation k yields: an import carries
      its namespace attribute (the empty string when absent), an include
      or a redefine no namespace. */
  function ToReference(k: RefType, e: Element): XsdReference {
    XsdReference(Tag(k), Location(e), if k == Import then Some(Attribute(e, "namespace")) else None)
  }

  /** The references of one relation: one per element with a non-empty
      schemaLocation, in document order. */
  function ReferencesOf(k: RefType, elements: seq<Element>): seq<XsdReference> {
    if elements == [] then []
    else
      var last := elements[|elements| - 1];
      ReferencesOf(k, elements[..|elements| - 1]) + (if Location(last) != "" then [ToReference(k, last)] else [])
  }

  /** What the reader returns: all includes, then all imports, then all
      redefines. */
  function ParsedReferences(doc: seq<Element>): seq<XsdReference> {
    ReferencesOf(Include, ElementsNamed(doc, Tag(Include)))
    + ReferencesOf(Import, ElementsNamed(doc, Tag(Import)))
    + ReferencesOf(Redefine, ElementsNamed(doc, Tag(Redefine)))
  }

  lemma ReferencesOfSnoc(k: RefType, elements: seq<Element>, e: Element)
    ensures ReferencesOf(k, elements + [e])
      == ReferencesOf(k, elements) + (if Location(e) != "" then [ToReference(k, e)] else [])
  {
    assert (elements + [e])[..|elements|] == elements;
  }

  /** The reader: three passes over the document, one per relation. */
  method ParseXsdReferences(doc: seq<Element>) returns (references: seq<XsdReference>)
    ensures references == ParsedReferences(doc)
  {
    var includeRefs := ReadIncludes(ElementsNamed(doc, "include"));
    var importRefs := ReadImports(ElementsNamed(doc, "import"));
    var redefineRefs := ReadRedefines(ElementsNamed(doc, "redefine"));
    references := includeRefs + importRefs + redefineRefs;
  }

  /** The include pass: each include with a location, without namespace. */
  method ReadIncludes(includes: seq<Element>) returns (references: seq<XsdReference>)
    ensures references == ReferencesOf(Include, includes)
  {
    references := [];
    for i := 0 to |includes|
      invariant references == ReferencesOf(Include, includes[..i])
    {
      var element := includes[i];
      var location := Attribute(element, "schemaLocation");
      ReferencesOfSnoc(Include, includes[..i], element);
      TakeSnoc(includes, i);
      if location != "" {
        references := references + [XsdReference("include", location, None)];
      }
    }
    assert includes[..|includes|] == includes;
  }

  /** The import pass: each import with a location, with its namespace
      attribute. */
  method ReadImports(imports: seq<Element>) returns (references: seq<XsdReference>)
    ensures references == ReferencesOf(Import, imports)
  {
    references := [];
    for i := 0 to |imports|
      invariant references == ReferencesOf(Import, imports[..i])
    {
      var element := imports[i];
      var location := Attribute(element, "schemaLocation");
      var namespace := Attribute(element, "namespace");
      ReferencesOfSnoc(Import, imports[..i], element);
      TakeSnoc(imports, i);
      if location != "" {
        references := references + [XsdReference("import", location, Some(namespace))];
      }
    }
    assert imports[..|imports|] == imports;
  }

  /** The redefine pass: each redefine with a location, without namespace. */
  method ReadRedefines(redefines: seq<Element>) returns (references: seq<XsdReference>)
    ensures references == ReferencesOf(Redefine, redefines)
  {
    references := [];
    for i := 0 to |redefines|
      invariant references == ReferencesOf(Redefine, redefines[..i])
    {
      var element := redefines[i];
      var location := Attribute(element, "schemaLocation");
      ReferencesOfSnoc(Redefine, redefines[..i], element);
      TakeSnoc(redefines, i);
      if location != "" {
        references := references + [XsdReference("redefine", location, None)];
      }
    }
    assert redefines[..|redefines|] == redefines;
  }

  /** A reference of relation k is exactly what an element with a
      non-empty schemaLocation yields. */
  lemma {:induction false} ReferencesOfExact(k: RefType, elements: seq<Element>, r: XsdReference)
    ensures r in ReferencesOf(k, elements) <==> exists e :: e in elements && Location(e) != "" && r == ToReference(k, e)
    decreases |elements|
  {
    if elements != [] {
      var front := elements[..|elements| - 1];
      var last := elements[|elements| - 1];
      ReferencesOfExact(k, front, r);
      FrontLast(elements);
      if r in ReferencesOf(k, front) {
        var e :| e in front && Location(e) != "" && r == ToReference(k, e);
        assert e in elements;
      }
    }
  }

  /** Every reference of relation k carries k's tag and a non-empty
      location, and a namespace exactly when k is an import. */
  lemma {:induction false} ReferencesOfWellFormed(k: RefType, elements: seq<Element>)
    ensures forall r :: r in ReferencesOf(k, elements) ==>
      && r.refType == Tag(k)
      && r.schemaLocation != ""
      && (r.namespace.Some? <==> k == Import)
    decreases |elements|
  {
    if elements != [] {
      ReferencesOfWellFormed(k, elements[..|elements| - 1]);
    }
  }

  /** A reference is read exactly when the document holds an element of
      the XML Schema namespace named after its relation, with a non-empty
      schemaLocation, that yields it. */
  lemma ParsedReferencesExact(doc: seq<Element>, r: XsdReference)
    ensures r in ParsedReferences(doc) <==>
      exists k: RefType, e :: e in doc && IsXsd(e, Tag(k)) && Location(e) != "" && r == ToReference(k, e)
  {
    ReferencesOfExact(Include, ElementsNamed(doc, Tag(Include)), r);
    ReferencesOfExact(Import, ElementsNamed(doc, Tag(Import)), r);
    ReferencesOfExact(Redefine, ElementsNamed(doc, Tag(Redefine)), r);
    if exists k: RefType, e :: e in doc && IsXsd(e, Tag(k)) && Location(e) != "" && r == ToReference(k, e) {
      var k: RefType, e :| e in doc && IsXsd(e, Tag(k)) && Location(e) != "" && r == ToReference(k, e);
      assert e in ElementsNamed(doc, Tag(k));
    }
  }

  /** The order of the result: includes before imports before redefines. */
  function Rank(k: RefType): nat {
    match k
    case Include => 0
    case Import => 1
    case Redefine => 2
  }

  /** The relation of the section the i-th reference read falls into. */
  function SectionAt(doc: seq<Element>, i: int): RefType {
    var includes := |ReferencesOf(Include, ElementsNamed(doc, Tag(Include)))|;
    var imports := |ReferencesOf(Import, ElementsNamed(doc, Tag(Import)))|;
    if i < includes then Include else if i < includes + imports then Import else Redefine
  }

  /** Every reference read has a non-empty location, the tag of its
      section and a namespace exactly when it is an import, and the
      sections come in the order include, import, redefine. */
  lemma ParsedReferencesShape(doc: seq<Element>)
    ensures var refs := ParsedReferences(doc);
      forall i :: 0 <= i < |refs| ==>
        && refs[i].schemaLocation != ""
        && refs[i].refType == Tag(SectionAt(doc, i))
        && (refs[i].namespace.Some? <==> SectionAt(doc, i) == Import)
    ensures forall i, j :: 0 <= i <= j ==> Rank(SectionAt(doc, i)) <= Rank(SectionAt(doc, j))
  {
    var a := ReferencesOf(Include, ElementsNamed(doc, Tag(Include)));
    var b := ReferencesOf(Import, ElementsNamed(doc, Tag(Import)));
    var c := ReferencesOf(Redefine, ElementsNamed(doc, Tag(Redefine)));
    ReferencesOfWellFormed(Include, ElementsNamed(doc, Tag(Include)));
    ReferencesOfWellFormed(Import, ElementsNamed(doc, Tag(Import)));
    ReferencesOfWellFormed(Redefine, ElementsNamed(doc, Tag(Redefine)));
    var refs := a + b + c;
    forall i | 0 <= i < |refs|
      ensures refs[i].schemaLocation != ""
      ensures refs[i].refType == Tag(SectionAt(doc, i))
      ensures refs[i].namespace.Some? <==> SectionAt(doc, i) == Import
    {
      if i < |a| {
        assert refs[i] == a[i] && a[i] in a;
      } else if i < |a| + |b| {
        assert refs[i] == b[i - |a|] && b[i - |a|] in b;
      } else {
        assert refs[i] == c[i - |a| - |b|] && c[i - |a| - |b|] in c;
      }
    }
  }

  lemma {:induction false} ElementsNamedAppend(x: seq<Element>, y: seq<Element>, localName: string)
    ensures ElementsNamed(x + y, localName) == ElementsNamed(x, localName) + ElementsNamed(y, localName)
    decreases |y|
  {
    if y == [] {
      assert x + y == x;
    } else {
      var front := y[..|y| - 1];
      ElementsNamedAppend(x, front, localName);
      ConcatFront(x, y);
    }
  }

  lemma {:induction false} ReferencesOfAppend(k: RefType, x: seq<Element>, y: seq<Element>)
    ensures ReferencesOf(k, x + y) == ReferencesOf(k, x) + ReferencesOf(k, y)
    decreases |y|
  {
    if y == [] {
      assert x + y == x;
    } else {
      var front := y[..|y| - 1];
      ReferencesOfAppend(k, x, front);
      ConcatFront(x, y);
    }
  }

  /** The matches of a+[e]+b are those of a, then e when it matches,
      then those of b. */
  lemma ElementsNamedSplit(a: seq<Element>, e: Element, b: seq<Element>, localName: string)
    ensures ElementsNamed(a + [e] + b, localName)
      == ElementsNamed(a, localName) + (if IsXsd(e, localName) then [e] else []) + ElementsNamed(b, localName)
    ensures ElementsNamed(a + b, localName) == ElementsNamed(a, localName) + ElementsNamed(b, localName)
  {
    ElementsNamedAppend(a + [e], b, localName);
    ElementsNamedAppend(a, [e], localName);
    ElementsNamedAppend(a, b, localName);
    assert [e][..0] == [];
  }

  /** An element without a location adds no reference. */
  lemma ReferencesOfSkip(k: RefType, x: seq<Element>, e: Element, y: seq<Element>)
    requires Location(e) == ""
    ensures ReferencesOf(k, x + [e] + y) == ReferencesOf(k, x + y)
  {
    ReferencesOfAppend(k, x + [e], y);
    ReferencesOfAppend(k, x, y);
    ReferencesOfSnoc(k, x, e);
  }

  /** An element that is not of relation k, or has no location, adds
      nothing to that relation's references. */
  lemma IgnoredElementOf(k: RefType, a: seq<Element>, e: Element, b: seq<Element>)
    requires !IsXsd(e, Tag(k)) || Location(e) == ""
    ensures ReferencesOf(k, ElementsNamed(a + [e] + b, Tag(k))) == ReferencesOf(k, ElementsNamed(a + b, Tag(k)))
  {
    ElementsNamedSplit(a, e, b, Tag(k));
    var ea := ElementsNamed(a, Tag(k));
    var eb := ElementsNamed(b, Tag(k));
    if IsXsd(e, Tag(k)) {
      ReferencesOfSkip(k, ea, e, eb);
    } else {
      assert ea + [] + eb == ea + eb;
    }
  }

  /** Elements are ignored, wherever they stand, when they are not one of
      the three elements of the XML Schema namespace (an element of
      another namespace with the same local name, or none at all), or when
      their schemaLocation is empty or absent. */
  lemma IgnoredElement(a: seq<Element>, e: Element, b: seq<Element>)
    requires (!IsXsd(e, "include") && !IsXsd(e, "import") && !IsXsd(e, "redefine")) || Location(e) == ""
    ensures ParsedReferences(a + [e] + b) == ParsedReferences(a + b)
  {
    IgnoredElementOf(Include, a, e, b);
    IgnoredElementOf(Import, a, e, b);
    IgnoredElementOf(Redefine, a, e, b);
  }

  /** A lone import without a namespace attribute is read with the
      empty namespace, not with none. */
  lemma ImportWithoutNamespace(e: Element)
    requires IsXsd(e, "import") && Location(e) != "" && "namespace" !in e.attributes
    ensures ParsedReferences([e]) == [XsdReference("import", Location(e), Some(""))]
  {
    assert [e][..0] == [];
    assert ElementsNamed([e], Tag(Import)) == [e];
    assert !IsXsd(e, Tag(Include)) && !IsXsd(e, Tag(Redefine));
    assert ElementsNamed([e], Tag(Include)) == [];
    assert ElementsNamed([e], Tag(Redefine)) == [];
    ReferencesOfSnoc(Import, [], e);
    assert [] + [e] == [e];
  }

  /** The auto-resolve entry point: the schema document must exist; its
      direct references are mapped to files under the schema folder, and
      nothing is built, so it answers false. */
  datatype AutoResolveRun = AutoResolveRun(built: bool, dependencies: seq<Path>)

  /** The files under dir named by each reference's location, in order. */
  function LocationsUnder(dir: Option<Path>, refs: seq<XsdReference>): (ps: seq<Path>)
    ensures |ps| == |refs|
    ensures forall i :: 0 <= i < |refs| ==> ps[i] == Child(dir, refs[i].schemaLocation)
  {
    if refs == [] then [] else LocationsUnder(dir, refs[..|refs| - 1]) + [Child(dir, refs[|refs| - 1].schemaLocation)]
  }

  /** The document parser is a parameter: it turns a file's text into the
      elements below the root element. A missing root schema fails to parse; otherwise the call
      builds nothing and names one dependency per direct reference, each
      under the schema folder. */
  function GenerateAutoResolve(files: FileSystem, parse: string -> seq<Element>, schema: string, schemaFolder: Option<Path>)
    : (r: Result<AutoResolveRun>)
    ensures Child(schemaFolder, schema) !in files <==> r == Err(FileNotFound(Child(schemaFolder, schema)))
    ensures Child(schemaFolder, schema) in files ==>
      var refs := ParsedReferences(parse(files[Child(schemaFolder, schema)]));
      && r.Ok? && !r.value.built
      && |r.value.dependencies| == |refs|
      && forall i :: 0 <= i < |refs| ==> r.value.dependencies[i] == Child(schemaFolder, refs[i].schemaLocation)
  {
    var schemaFile := Child(schemaFolder, schema);
    if schemaFile !in files then Err(FileNotFound(schemaFile))
    else Ok(AutoResolveRun(false, LocationsUnder(schemaFolder, ParsedReferences(parse(files[schemaFile])))))
  }
}
