/**
 * A `<select>` form element and its options.
 *
 * A select collects the `option` elements below its element once, in
 * document order, and knows whether it is a multiple-choice select. Each
 * option carries a selection flag that changes in place; selecting an
 * option of a single-choice select first unselects every option.
 */
module Form {
  import W = Wrappers
  import opened Seqs
  import N = Nodes
  import T = Traversal

  datatype FormError = UnsupportedOperation(message: string)

  /** The message a select gives when its value is set directly. */
  const SetValueMessage: string := "Value of hidden field may not be changed / set"

  /** The query `byTag(tag)`: the node's name is `tag`. */
  function ByTag(tag: string): (r: T.Query)
    ensures forall m :: r(m) <==> N.GetAttribute(m, N.NameKey) == W.Some(tag)
  {
    m => N.GetName(m) == W.Some(tag)
  }

  /**
   * The query `byValue(s).or.byInnerHtml(s)`, applied to `n`: the literal
   * `value` attribute is `s`, or the inner HTML is `s`.
   */
  function ValueOrText(n: N.Node, s: string): (r: bool)
    ensures r <==> ("value" in n.attributes && n.attributes["value"] == s) || n.innerHtml == s
  {
    N.GetAttribute(n, "value") == W.Some(s) || n.innerHtml == s
  }

  /** An option matches a query when its element does. */
  function ElementMatches(q: T.Query): Option -> bool {
    (o: Option) => q(o.element)
  }

  class Select {
    const isMultiple: bool
    var options: seq<Option>

    /** Every option belongs to this select, and no option is listed twice. */
    ghost predicate Valid()
      reads this
    {
      && (forall i :: 0 <= i < |options| ==> options[i].owner == this)
      && (forall i, j :: 0 <= i < j < |options| ==> options[i] != options[j])
    }

    /** One new option per `option` element below `element`, in the order the search finds them. */
    constructor (element: N.Node)
      ensures isMultiple == N.HasAttribute(element, "multiple")
      ensures Valid()
      ensures |options| == |T.GetAll(element, ByTag("option"))|
      ensures forall i :: 0 <= i < |options| ==>
        && options[i].element == T.GetAll(element, ByTag("option"))[i]
        && fresh(options[i])
        && options[i].FromElement()
    {
      isMultiple := N.HasAttribute(element, "multiple");
      options := [];
      new;
      var optionElements := T.GetAll(element, ByTag("option"));
      var i := 0;
      while i < |optionElements|
        invariant 0 <= i <= |optionElements|
        invariant |options| == i
        invariant forall j :: 0 <= j < i ==>
          && options[j].element == optionElements[j]
          && options[j].owner == this
          && fresh(options[j])
          && options[j].FromElement()
        invariant forall j, k :: 0 <= j < k < i ==> options[j] != options[k]
      {
        var option := new Option(this, optionElements[i]);
        options := options + [option];
        i := i + 1;
      }
    }

    /** The first option, in list order, whose element matches `q`; null when none does. */
    method GetOption(q: T.Query) returns (r: Option?)
      ensures r == null <==> forall i :: 0 <= i < |options| ==> !q(options[i].element)
      ensures r != null ==> exists k :: 0 <= k < |options| && options[k] == r && q(r.element) &&
                                  forall j :: 0 <= j < k ==> !q(options[j].element)
    {
      var i := 0;
      while i < |options|
        invariant 0 <= i <= |options|
        invariant forall j :: 0 <= j < i ==> !q(options[j].element)
      {
        if q(options[i].element) {
          return options[i];
        }
        i := i + 1;
      }
      return null;
    }

    /** The first option whose `value` attribute or inner HTML is `valueOrText`; null when none is. */
    method GetOptionByValueOrText(valueOrText: string) returns (r: Option?)
      ensures r == null <==> forall i :: 0 <= i < |options| ==> !ValueOrText(options[i].element, valueOrText)
      ensures r != null ==> exists k :: 0 <= k < |options| && options[k] == r && ValueOrText(r.element, valueOrText) &&
                                  forall j :: 0 <= j < k ==> !ValueOrText(options[j].element, valueOrText)
    {
      r := GetOption(n => ValueOrText(n, valueOrText));
    }

    /** All options in the order of occurrence, as a value the caller cannot use to change the select. */
    method GetOptions() returns (r: seq<Option>)
      ensures |r| == |options|
      ensures forall i :: 0 <= i < |r| ==> r[i] == options[i]
    {
      r := options;
    }

    /** All options whose element matches `q`, in the order of occurrence. */
    method GetOptionsMatching(q: T.Query) returns (r: seq<Option>)
      ensures r == Filter(options, ElementMatches(q))
    {
      r := [];
      var i := 0;
      while i < |options|
        invariant 0 <= i <= |options|
        invariant r == Filter(options[..i], ElementMatches(q))
      {
        FilterConcat(options[..i], [options[i]], ElementMatches(q));
        assert options[..i + 1] == options[..i] + [options[i]];
        if q(options[i].element) {
          r := r + [options[i]];
        }
        i := i + 1;
      }
      assert options[..i] == options;
    }

    /** Setting the value of a select directly is refused; nothing changes. */
    method SetValue(value: string) returns (r: W.Outcome<FormError>)
      ensures r == W.Fail(UnsupportedOperation(SetValueMessage))
    {
      r := W.Fail(UnsupportedOperation(SetValueMessage));
    }
  }

  /**
   * An option of a select: the class `Select.Option`. `Option?` is its
   * nullable type, the model of a null result. Do not confuse it with the
   * datatype `W.Option` (`Wrappers.Option`), which stands for a nullable value.
   */
  class Option {
    const owner: Select
    const element: N.Node
    const text: string
    const value: string
    var isSelected: bool

    /**
     * The state an option takes from its element: its text is the inner HTML,
     * its value the `value` attribute when present and the text otherwise, and
     * it starts selected exactly when the `selected` attribute is present.
     */
    ghost predicate FromElement()
      reads this
    {
      && text == element.innerHtml
      && (N.HasAttribute(element, "value") ==> N.GetAttribute(element, "value") == W.Some(value))
      && (!N.HasAttribute(element, "value") ==> value == text)
      && isSelected == N.HasAttribute(element, "selected")
    }

    constructor (owner: Select, element: N.Node)
      ensures this.owner == owner && this.element == element
      ensures FromElement()
    {
      this.owner := owner;
      this.element := element;
      text := element.innerHtml;
      value := if N.HasAttribute(element, "value") then N.GetAttribute(element, "value").value else element.innerHtml;
      isSelected := N.HasAttribute(element, "selected");
    }

    /**
     * Sets this option's flag. Selecting an option of a single-choice select
     * unselects every other option; otherwise no other option changes.
     */
    method SetSelected(selected: bool)
      requires owner.Valid()
      modifies owner.options, this
      ensures isSelected == selected
      ensures selected && !owner.isMultiple ==>
        forall i :: 0 <= i < |owner.options| && owner.options[i] != this ==> !owner.options[i].isSelected
      ensures !selected || owner.isMultiple ==>
        forall i :: 0 <= i < |owner.options| && owner.options[i] != this ==>
          owner.options[i].isSelected == old(owner.options[i].isSelected)
      decreases if selected then 2 else 0
    {
      if selected && !owner.isMultiple {
        var i := 0;
        while i < |owner.options|
          invariant 0 <= i <= |owner.options|
          invariant forall j :: 0 <= j < i ==> !owner.options[j].isSelected
          invariant forall j :: i <= j < |owner.options| ==>
            owner.options[j].isSelected == old(owner.options[j].isSelected)
        {
          owner.options[i].Unselect();
          i := i + 1;
        }
      }
      isSelected := selected;
    }

    /** Selects this option, as SetSelected(true). */
    method Select()
      requires owner.Valid()
      modifies owner.options, this
      ensures isSelected
      ensures !owner.isMultiple ==>
        forall i :: 0 <= i < |owner.options| && owner.options[i] != this ==> !owner.options[i].isSelected
      ensures owner.isMultiple ==>
        forall i :: 0 <= i < |owner.options| && owner.options[i] != this ==>
          owner.options[i].isSelected == old(owner.options[i].isSelected)
      decreases 3
    {
      SetSelected(true);
    }

    /** Unselects this option, as SetSelected(false); no other option changes. */
    method Unselect()
      requires owner.Valid()
      modifies owner.options, this
      ensures !isSelected
      ensures forall i :: 0 <= i < |owner.options| && owner.options[i] != this ==>
        owner.options[i].isSelected == old(owner.options[i].isSelected)
      decreases 1
    {
      SetSelected(false);
    }
  }
}
