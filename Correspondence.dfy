/**
 * The two `Corresponds` overloads of Documentor/Program.cs: when an element
 * is taken to duplicate another during duplicate removal.
 */
module Correspondence {
  import opened Wrappers
  import opened XmlTree

  /** `Corresponds(XAttribute, XAttribute)`: a missing target never
      corresponds; otherwise the names are compared, never the values. */
  function AttributeCorresponds(source: Attribute, target: Option<Attribute>): bool
  {
    target.Some? && source.name == target.value.name
  }

  /** `Corresponds(XElement, XElement)`: same element name, and each attribute
      of `source` corresponds to `target`'s attribute of the same name. */
  predicate Corresponds(source: Node, target: Node)
    requires source.Element? && target.Element?
  {
    source.name == target.name &&
    forall k :: 0 <= k < |source.attrs| ==>
      AttributeCorresponds(source.attrs[k], FindAttribute(target.attrs, source.attrs[k].name))
  }

  /** What correspondence means: equal names, and every attribute name of
      `source` is an attribute name of `target`. Values and children play no part. */
  lemma CorrespondsMeaning(source: Node, target: Node)
    requires source.Element? && target.Element?
    ensures Corresponds(source, target) <==>
      source.name == target.name && AttributeNames(source.attrs) <= AttributeNames(target.attrs)
  {
    if source.name == target.name && AttributeNames(source.attrs) <= AttributeNames(target.attrs) {
      forall k | 0 <= k < |source.attrs|
        ensures AttributeCorresponds(source.attrs[k], FindAttribute(target.attrs, source.attrs[k].name))
      {
        assert source.attrs[k].name in AttributeNames(source.attrs);
      }
    }
    if Corresponds(source, target) {
      forall n | n in AttributeNames(source.attrs) ensures n in AttributeNames(target.attrs) {
        var a :| a in source.attrs && a.name == n;
        var k :| 0 <= k < |source.attrs| && source.attrs[k] == a;
        assert AttributeCorresponds(source.attrs[k], FindAttribute(target.attrs, n));
      }
    }
  }

  /** Every element corresponds to itself; this is what the identity checks
      `source == target` at the head of both overloads amount to. */
  lemma CorrespondsReflexive(e: Node)
    requires e.Element?
    ensures Corresponds(e, e)
  {
    CorrespondsMeaning(e, e);
  }

  lemma CorrespondsTransitive(a: Node, b: Node, c: Node)
    requires a.Element? && b.Element? && c.Element?
    requires Corresponds(a, b) && Corresponds(b, c)
    ensures Corresponds(a, c)
  {
    CorrespondsMeaning(a, b);
    CorrespondsMeaning(b, c);
    CorrespondsMeaning(a, c);
  }

  /** Correspondence depends only on the element names and the attribute
      names: replacing attribute values or children keeps it. */
  lemma CorrespondsIgnoresValuesAndContent(a: Node, b: Node, a': Node, b': Node)
    requires a.Element? && b.Element? && a'.Element? && b'.Element?
    requires a'.name == a.name && AttributeNames(a'.attrs) == AttributeNames(a.attrs)
    requires b'.name == b.name && AttributeNames(b'.attrs) == AttributeNames(b.attrs)
    ensures Corresponds(a, b) == Corresponds(a', b')
  {
    CorrespondsMeaning(a, b);
    CorrespondsMeaning(a', b');
  }

  /** The relation is not symmetric: the target may carry extra attributes. */
  lemma CorrespondsNotSymmetric()
    ensures var plain := Element("param", [], []);
            var named := Element("param", [Attribute("name", "x")], []);
            Corresponds(plain, named) && !Corresponds(named, plain)
  {
    var named := Element("param", [Attribute("name", "x")], []);
    assert FindAttribute(named.attrs, "name").Some?;
  }
}
