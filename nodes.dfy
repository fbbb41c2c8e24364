/**
 * A node of a parsed document: name, value, literal attributes, the special
 * attributes its kind supports, and its children in document order.
 *
 * Special attribute keys have the form `${...}`. Every node supports the two
 * keys for its name and its value; a node kind may support further ones,
 * whose values it computes from its own state (here: already computed and
 * carried in `specials`). A special key resolves before a literal attribute
 * stored under the same key.
 */
module Nodes {
  import opened Wrappers

  /** The special attribute that stands for the node's name. */
  const NameKey: string := "${name}"

  /** The special attribute that stands for the node's value. */
  const ValueKey: string := "${value}"

  datatype Node = Node(
    name: Option<string>,
    value: Option<string>,
    attributes: map<string, string>,    // literal attributes that are set with a value
    specials: map<string, Option<string>>,  // further special attributes of this node's kind, with their computed values
    innerHtml: string,                  // the element's inner HTML text, as the document parser produced it
    children: seq<Node>)

  /** True for keys in the reserved `${name}` notation. */
  predicate IsSpecialKey(k: string) {
    |k| >= 3 && k[0] == '$' && k[1] == '{' && k[|k| - 1] == '}'
  }

  /** The special attributes node `n` supports. */
  function SupportedSpecials(n: Node): (r: set<string>)
    ensures NameKey in r && ValueKey in r
    ensures forall k :: k in r ==> IsSpecialKey(k)
    ensures forall k :: k in n.specials && IsSpecialKey(k) ==> k in r
    ensures forall k :: k in r ==> k == NameKey || k == ValueKey || k in n.specials
  {
    {NameKey, ValueKey} + (set k | k in n.specials && IsSpecialKey(k))
  }

  /** Whether the attribute is present: set with a value, or a supported special attribute. */
  function HasAttribute(n: Node, k: string): (r: bool)
    ensures k in SupportedSpecials(n) ==> r
    ensures k !in SupportedSpecials(n) ==> (r <==> k in n.attributes)
  {
    k in n.attributes || k in SupportedSpecials(n)
  }

  /**
   * The value of the attribute: the computed value of a supported special
   * attribute, else the literal value, else None.
   */
  function GetAttribute(n: Node, k: string): (r: Option<string>)
    ensures r.Some? ==> HasAttribute(n, k)
    ensures k !in SupportedSpecials(n) ==> (r.Some? <==> k in n.attributes)
    ensures k !in SupportedSpecials(n) && k in n.attributes ==> r == Some(n.attributes[k])
    ensures k == NameKey ==> r == n.name
    ensures k == ValueKey ==> r == n.value
    ensures k in SupportedSpecials(n) && k != NameKey && k != ValueKey ==> k in n.specials && r == n.specials[k]
  {
    if k == NameKey then n.name
    else if k == ValueKey then n.value
    else if IsSpecialKey(k) && k in n.specials then n.specials[k]
    else if k in n.attributes then Some(n.attributes[k])
    else None
  }

  /**
   * Presence and value agree for every key that is not a supported special
   * attribute: such an attribute is present exactly when it has a value. A
   * supported special attribute is present even when its value is missing.
   */
  lemma PresentIffValued(n: Node, k: string)
    ensures k !in SupportedSpecials(n) ==> (HasAttribute(n, k) <==> GetAttribute(n, k).Some?)
    ensures k in SupportedSpecials(n) ==> HasAttribute(n, k)
  {
  }

  /** Every attribute name that is present, including every supported special attribute. */
  function GetAttributeNames(n: Node): (r: set<string>)
    ensures forall k :: k in r <==> HasAttribute(n, k)
    ensures SupportedSpecials(n) <= r && n.attributes.Keys <= r
  {
    n.attributes.Keys + SupportedSpecials(n)
  }

  /** The node's name; the same as the special name attribute. */
  function GetName(n: Node): (r: Option<string>)
    ensures r == GetAttribute(n, NameKey)
  {
    n.name
  }

  /** The node's value; the same as the special value attribute. */
  function GetValue(n: Node): (r: Option<string>)
    ensures r == GetAttribute(n, ValueKey)
  {
    n.value
  }

  /**
   * The precedence policy by name: a special key of the node's kind resolves
   * to its computed value, whether or not a literal attribute is stored under
   * the same key. This is the last `ensures` of GetAttribute, restated for
   * a caller that wants the policy without the other cases.
   */
  lemma SpecialTakesPrecedence(n: Node, k: string)
    requires IsSpecialKey(k) && k in n.specials
    requires k != NameKey && k != ValueKey
    ensures GetAttribute(n, k) == n.specials[k]
  {
  }
}
