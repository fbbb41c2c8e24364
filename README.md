# Node search and select options of a programmatic web browser

This project models two pieces of the mechanize library for Java.

1. **The node model and the search of a document tree** (`Node`). A node has these parts:
   - a name and a value;
   - literal attributes;
   - special attributes in the `${name}` notation, whose values the node's kind computes;
   - its children in document order.

   `getAll` returns every node that matches a query, found by a deep-first, left-right search. `get` returns the first of them. `find` returns the only match: nothing when no node matches, and an error when several do. `findAll` returns the possibly empty list of matches. `getParent` returns a node's parent, or nothing for the root.
2. **The `<select>` form element** (`Select` and its inner class `Option`). A select gathers its `option` elements once, in document order. It records whether it is a multiple-choice select. Each option has a selection flag that changes in place. Selecting an option of a single-choice select unselects every other option.

The model is five modules:

- `Wrappers` holds `Option`, `Result` and `Outcome`. These stand for Java's `null` and for thrown exceptions.
- `Seqs` holds the order-preserving sequence helpers `Filter` and `Truncate`.
- `Nodes` holds the node datatype and its attribute operations.
- `Traversal` holds the search, `find` and `findAll`, and parents.
- `Form` holds the `Select` and `Option` classes.

The node part is pure: datatypes, functions and lemmas. The select part is imperative:
- `Select` and `Option` are classes.
- The constructor fills `options` in a loop.
- `Option.isSelected` is a mutable field.
- `SetSelected` has `modifies` clauses, and its loop unselects every option.
- `GetOption` and `GetOptionsMatching` are loops.

Choices made where the source leaves a question open:

- **The search includes the node it starts from.** `Node.java:30` speaks of "child elements". The model tests the start node first and then its descendants, in pre-order.
- **The node's position in the tree is its identity.** A position is the path of child indexes from the root. The pre-order walk `Positions` visits every valid position exactly once. It visits them in the lexicographic order `Before`: a node before its descendants, and a child's subtree before its later siblings. The parent of a node is described through its position.
- **Special attributes.** Every node supports `${name}` and `${value}`, and these resolve to the node's name and value. A node kind may support more special keys. The model carries each such key with its already computed value, and only keys of the form `${...}` count. A supported special key resolves before a literal attribute stored under the same key. A supported special attribute counts as present even when its value is missing.
- **The names of the special keys.** The `SpecialAttribute` constants are not part of this model. The keys are taken to be the strings `"${name}"` and `"${value}"`.
- **Queries.** A query is a predicate `Node -> bool`. `byTag(t)` holds when the node's name is `t`. `byValue(s).or.byInnerHtml(s)` holds when the `value` attribute is `s` or the inner HTML is `s`.
- **Inner HTML.** An element's inner HTML is a plain field of the node.
- **Documentation typo.** The comment on `getValue` (`Node.java:27`) says "Returns the name of the node". The comment refers to the value attribute, so the model returns the node's value.

## Model

| member | source | states |
|---|---|---|
| `Nodes.SupportedSpecials` | src/main/java/com/gistlabs/mechanize/document/node/Node.java:17-18 | every node supports the `${name}` and `${value}` special attributes; every supported special attribute has the `${...}` form; every special key of the node's kind is supported, and nothing else is |
| `Nodes.HasAttribute` | src/main/java/com/gistlabs/mechanize/document/node/Node.java:62-63 | every supported special attribute is present; any other key is present exactly when it is set with a value |
| `Nodes.PresentIffValued` | src/main/java/com/gistlabs/mechanize/document/node/Node.java:62-66 | for a key that is not a supported special attribute, hasAttribute holds exactly when getAttribute returns a value; a supported special attribute is present even without a value |
| `Nodes.GetAttribute` | src/main/java/com/gistlabs/mechanize/document/node/Node.java:65-66 | a value is returned only for a present attribute. The name and value special keys give the node's name and value. Any other supported special key gives the value its node kind computes, such as `${text}`. A key that is not a supported special attribute, including an unsupported `${...}` key, behaves as a literal: it has a value exactly when it is set, and that value is the stored one |
| `Nodes.SpecialTakesPrecedence` | src/main/java/com/gistlabs/mechanize/document/node/Node.java:17-18 | the precedence policy by name: a special key of the node's kind resolves to its computed value, whether or not a literal attribute of that name is stored (the same fact as the last clause of GetAttribute's contract) |
| `Nodes.GetAttributeNames` | src/main/java/com/gistlabs/mechanize/document/node/Node.java:68-69 | contains a key exactly when HasAttribute holds for it: every set attribute and every supported special attribute |
| `Nodes.GetName` | src/main/java/com/gistlabs/mechanize/document/node/Node.java:24-25 | equals the value of the special name attribute |
| `Nodes.GetValue` | src/main/java/com/gistlabs/mechanize/document/node/Node.java:27-28 | equals the value of the special value attribute |
| `Traversal.GetAll` | src/main/java/com/gistlabs/mechanize/document/node/Node.java:33-34 | every result matches the query, and a matching start node comes first. The full meaning comes from GetAllIsFilter and GetAllExact: exactly the matches, in deep-first, left-right order, each once |
| `Traversal.Get` | src/main/java/com/gistlabs/mechanize/document/node/Node.java:30-31 | a result always matches the query, and a matching start node is returned at once. GetIsFirst shows it is the first element of GetAll, and nothing exactly when GetAll is empty |
| `Traversal.PositionsMatchFlatten` | src/main/java/com/gistlabs/mechanize/document/node/Node.java:30-34 | the j-th node of the pre-order walk is the node at the j-th visited position, and every visited position exists in the tree |
| `Traversal.PositionsComplete` | src/main/java/com/gistlabs/mechanize/document/node/Node.java:30-34 | the walk visits every position of the tree (no node is left out) |
| `Traversal.PositionsIncreasing` | src/main/java/com/gistlabs/mechanize/document/node/Node.java:30-34 | the walk visits positions in deep-first, left-right order: each node before its descendants and each subtree before its later siblings |
| `Traversal.IncreasingDistinct` | src/main/java/com/gistlabs/mechanize/document/node/Node.java:33-34 | positions in deep-first, left-right order are pairwise distinct, so no node is visited twice |
| `Traversal.GetAllIsFilter` | src/main/java/com/gistlabs/mechanize/document/node/Node.java:33-34 | the search result is exactly the pre-order walk filtered by the query |
| `Traversal.GetAllExact` | src/main/java/com/gistlabs/mechanize/document/node/Node.java:33-34 | the j-th result is the node at the j-th matching position; the matching positions are exactly those whose node satisfies the query; they are in deep-first, left-right order and pairwise distinct |
| `Traversal.GetIsFirst` | src/main/java/com/gistlabs/mechanize/document/node/Node.java:30-31 | get returns nothing exactly when getAll is empty, and otherwise the first element of getAll |
| `Traversal.Take` | src/main/java/com/gistlabs/mechanize/document/node/Node.java:36-42 | the early-stopping search collects at most k matches |
| `Traversal.TakeIsPrefix` | src/main/java/com/gistlabs/mechanize/document/node/Node.java:36-42 | the early-stopping search returns the first k results of getAll (all of them when there are fewer) |
| `Traversal.Find` | src/main/java/com/gistlabs/mechanize/document/node/Node.java:36-42 | no match gives nothing; exactly one match gives that node; two or more give an AmbiguousMatch error; each in both directions |
| `Traversal.FindAll` | src/main/java/com/gistlabs/mechanize/document/node/Node.java:44-51 | always a sequence, never an error: the pre-order walk filtered by the query, possibly empty |
| `Traversal.GetParent` | src/main/java/com/gistlabs/mechanize/document/node/Node.java:59-60 | nothing exactly for the root position; otherwise the node of the tree at the parent position (the path without its last index), which has the given node as its child at that last index |
| `Traversal.LastStep` | src/main/java/com/gistlabs/mechanize/document/node/Node.java:59-60 | a position one step longer than p exists only below an existing p, and names a child of the node at p |
| `Seqs.FilterConcat` | src/main/java/com/gistlabs/mechanize/form/Select.java:58-65 | filtering distributes over concatenation, so the accumulating loop keeps the options' relative order |
| `Form.ByTag` | src/main/java/com/gistlabs/mechanize/form/Select.java:32 | the query `byTag("option")`: a node matches exactly when its special name attribute is the tag |
| `Form.ValueOrText` | src/main/java/com/gistlabs/mechanize/form/Select.java:42 | the query `byValue(s).or.byInnerHtml(s)`: a node matches exactly when its literal `value` attribute is `s` or its inner HTML is `s` |
| `Form.Select.constructor` | src/main/java/com/gistlabs/mechanize/form/Select.java:27-34 | isMultiple is true exactly when the element has the `multiple` attribute, and it is a constant; one fresh option per `option` element found by getAll, in the same order; each option belongs to this select and is initialised from its element |
| `Form.Option.constructor` | src/main/java/com/gistlabs/mechanize/form/Select.java:80-85 | the text is the inner HTML; the value is the `value` attribute when present and the text otherwise; the option starts selected exactly when the `selected` attribute is present |
| `Form.Select.GetOptionByValueOrText` | src/main/java/com/gistlabs/mechanize/form/Select.java:40-43 | the first option whose `value` attribute or inner HTML equals the argument; null exactly when no option does |
| `Form.Select.GetOption` | src/main/java/com/gistlabs/mechanize/form/Select.java:45-51 | null exactly when no option's element matches; otherwise the option at the first matching index |
| `Form.Select.GetOptions` | src/main/java/com/gistlabs/mechanize/form/Select.java:53-56 | the options in order of occurrence, as a sequence value; the select is not changed |
| `Form.Select.GetOptionsMatching` | src/main/java/com/gistlabs/mechanize/form/Select.java:58-65 | exactly the options whose element matches, in their order; the select is not changed |
| `Form.Select.SetValue` | src/main/java/com/gistlabs/mechanize/form/Select.java:67-70 | always fails with an unsupported-operation error carrying the source's message; changes nothing (no modifies clause) |
| `Form.Option.SetSelected` | src/main/java/com/gistlabs/mechanize/form/Select.java:95-100 | the target's flag becomes the argument. On a single-choice select, selecting unselects every other option. Unselecting, or any call on a multiple select, changes no other option. Like Java's public `Option` constructor, it also accepts an option that is not in the select's list |
| `Form.Option.Select` | src/main/java/com/gistlabs/mechanize/form/Select.java:102-104 | the target is selected; on a single-choice select every other option is unselected, and on a multiple select the others are unchanged |
| `Form.Option.Unselect` | src/main/java/com/gistlabs/mechanize/form/Select.java:106-108 | the target is unselected and no other option changes |

## Left out

- Traversal.Find: the query is the predicate a selector string stands for. Parsing CSS selector strings into queries is not modelled, since that code is not part of this model.
- Traversal.FindAll: takes the same predicate form of the query as Find.
- Nodes.GetAttributeNames: returns a set. The order of the returned Java list is not modelled, because the source does not state one; the list has no duplicates, which the set form gives for free.
- Query matching: `Query`, `AbstractQuery`, `QueryBuilder` and the regular-expression queries are not part of this model. Queries are plain predicates over a node, and the two queries the select uses are written out directly. As predicates, queries are stateless: evaluating one twice gives the same result.
- `visit(NodeVisitor)`, `getChildren()` and `getChildren(String...)`: not modelled. Node.java gives no description of the visitor (Node.java:71) or of the name filter (Node.java:56-57). The children of a node are its `children` field, a value the caller cannot use to change the tree.
- Object identity of nodes: a node is a value, and positions stand for identity. The parent link is therefore derived from a position, not stored. A tree built from values cannot contain cycles.
- `Form` and `FormElement`, the superclass of `Select`, are not part of this model. The form a select is built for is not modelled.
- `HtmlElement.getInnerHtml` is not part of this model. Its result is the node's `innerHtml` field.
- The getters `isMultiple()`, `getElement()`, `isSelected()`, `getText()` and `getValue()` of `Select` and `Option` read fields: `isMultiple`, `element`, `isSelected`, `text` and `value`. Except for `isSelected`, these are `const` in the model, so they cannot change after construction.
- The list behind `options` is assigned only by the constructor. No other method's frame includes the select object, so the list of options never changes afterwards. Java's implicit reference from an inner-class `Option` to its enclosing `Select` is the `owner` field.
- Concurrency: none in the source; the model is sequential.
