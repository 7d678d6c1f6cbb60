/**
 * The form-field constraints: `HasValue`, `IsChecked` and `IsSelected`.
 * Each looks its field up by name or id among a fixed list of element kinds
 * (`FormFieldConstraint::field`), fails when the lookup is empty, and then
 * inspects the FIRST node found.
 */
module FieldConstraints {
  import opened Outcome
  import opened Strings
  import opened Dom
  import opened Selectors
  import opened Views

  /** `HasValue::validElements()`. */
  const ValueKinds: seq<Kind> := [Tag("input"), Tag("textarea")]

  /** `IsChecked::validElements()`. */
  const CheckedKinds: seq<Kind> := [TypedTag("input", "checkbox")]

  /** `IsSelected::validElements()`. */
  const SelectedKinds: seq<Kind> := [Tag("select"), TypedTag("input", "radio")]

  function KindTexts(kinds: seq<Kind>): (r: seq<string>)
    ensures |r| == |kinds|
    ensures forall i :: 0 <= i < |kinds| ==> r[i] == KindText(kinds[i])
  {
    if |kinds| == 0 then [] else [KindText(kinds[0])] + KindTexts(kinds[1..])
  }

  /** The error `field()` raises: the kinds joined by "," and the selector as given. */
  function NoField(kinds: seq<Kind>, token: string): Error
  {
    NoSuchField(Join(KindTexts(kinds), ","), token)
  }

  /**
   * `field($crawler)`: the elements of the listed kinds whose id or name is
   * the token without `#`; an empty result is an error.
   */
  function Field(eng: Engine, nodes: seq<Node>, token: string, kinds: seq<Kind>): (r: Result<seq<Node>>)
    ensures r.Ok? ==> |r.value| > 0
    ensures r.Err? ==> r.error == NoField(kinds, token) || r.error == InvalidSelector(GroupSelector(token, kinds))
    ensures IsPlainName(FieldName(token)) ==>
      (r.Ok? <==> exists m :: m in PreorderAll(nodes) && MatchesNameOrId(m, FieldName(token), kinds))
    ensures IsPlainName(FieldName(token)) && r.Ok? ==>
      forall m :: m in r.value <==> m in PreorderAll(nodes) && MatchesNameOrId(m, FieldName(token), kinds)
    ensures IsPlainName(FieldName(token)) && r.Ok? ==>
      exists i :: FirstAt(PreorderAll(nodes), i, NamedTest(FieldName(token), kinds)) && r.value[0] == PreorderAll(nodes)[i]
  {
    var found :- SelectNameOrId(eng, nodes, token, kinds);
    if |found| > 0 then
      assert found[0] in found;
      Ok(found)
    else Err(NoField(kinds, token))
  }

  predicate IsElementNamed(n: Node, tag: string)
  {
    n.Element? && n.tag == tag
  }

  /**
   * `getInputOrTextAreaValue`: the `value` attribute of an input, the text
   * of anything else. An input without `value` makes `attr()` return null
   * from a function declared to return a string, which PHP refuses.
   */
  function InputOrTextAreaValue(field: seq<Node>): (r: Result<string>)
    requires |field| > 0
    ensures IsElementNamed(field[0], "input") ==> (r.Ok? <==> HasAttr(field[0], "value"))
    ensures IsElementNamed(field[0], "input") && r.Ok? ==> Attr(field[0], "value") == Some(r.value)
    ensures !IsElementNamed(field[0], "input") ==> r == Ok(TextContent(field[0]))
    ensures r.Err? ==> r.error == NullAsString
  {
    if IsElementNamed(field[0], "input") then
      match Attr(field[0], "value")
      case Some(value) => Ok(value)
      case None => Err(NullAsString)
    else Ok(TextContent(field[0]))
  }

  /** `HasValue::matches`: the field's value is exactly the expected string. */
  function HasValue(eng: Engine, v: View, token: string, expected: string): (r: Result<bool>)
    ensures Field(eng, CrawlerOf(eng, v), token, ValueKinds).Err? ==> r.Err? && (r.error.NoSuchField? || r.error.InvalidSelector?)
    ensures r.Err? ==> Field(eng, CrawlerOf(eng, v), token, ValueKinds).Err? || r.error == NullAsString
    ensures Field(eng, CrawlerOf(eng, v), token, ValueKinds).Ok? ==>
      var field := Field(eng, CrawlerOf(eng, v), token, ValueKinds).value;
      (r.Err? <==> IsElementNamed(field[0], "input") && !HasAttr(field[0], "value"))
    ensures r.Err? && r.error == NullAsString ==> IsElementNamed(Field(eng, CrawlerOf(eng, v), token, ValueKinds).value[0], "input")
    ensures r.Ok? ==> var field := Field(eng, CrawlerOf(eng, v), token, ValueKinds).value;
      if IsElementNamed(field[0], "input") then r.value <==> Attr(field[0], "value") == Some(expected)
      else r.value <==> TextContent(field[0]) == expected
  {
    var field :- Field(eng, CrawlerOf(eng, v), token, ValueKinds);
    var actual :- InputOrTextAreaValue(field);
    Ok(actual == expected)
  }

  /** The value `HasValue` compares for one field: an input's `value` attribute, any other element's text. */
  predicate ValueIs(n: Node, expected: string)
  {
    if IsElementNamed(n, "input") then Attr(n, "value") == Some(expected) else TextContent(n) == expected
  }

  /**
   * For a plain field name, `seeInField` holds exactly when the first input
   * or textarea in document order carrying that name or id has the expected
   * value, and raises exactly when there is no such field or it is an input
   * without a `value` attribute.
   */
  lemma HasValueFirstField(eng: Engine, v: View, token: string, expected: string)
    requires IsPlainName(FieldName(token))
    ensures var all := PreorderAll(CrawlerOf(eng, v));
      HasValue(eng, v, token, expected) == Ok(true) <==>
        exists i :: FirstAt(all, i, NamedTest(FieldName(token), ValueKinds)) && ValueIs(all[i], expected)
    ensures var all := PreorderAll(CrawlerOf(eng, v));
      HasValue(eng, v, token, expected).Err? <==>
        forall i :: FirstAt(all, i, NamedTest(FieldName(token), ValueKinds)) ==>
          IsElementNamed(all[i], "input") && !HasAttr(all[i], "value")
  {
    var all := PreorderAll(CrawlerOf(eng, v));
    var p := NamedTest(FieldName(token), ValueKinds);
    var f := Field(eng, CrawlerOf(eng, v), token, ValueKinds);
    FirstAtExists(all, p);
    if f.Ok? {
      var i :| FirstAt(all, i, p) && f.value[0] == all[i];
      forall j | FirstAt(all, j, p) ensures j == i { FirstAtUnique(all, i, j, p); }
      assert HasValue(eng, v, token, expected) == Ok(true) <==> ValueIs(all[i], expected);
    }
  }

  /** `IsChecked::matches`: the first checkbox found carries a `checked` attribute. */
  function IsChecked(eng: Engine, v: View, token: string): (r: Result<bool>)
    ensures r.Ok? <==> Field(eng, CrawlerOf(eng, v), token, CheckedKinds).Ok?
    ensures r.Ok? ==> (r.value <==> HasAttr(Field(eng, CrawlerOf(eng, v), token, CheckedKinds).value[0], "checked"))
  {
    var field :- Field(eng, CrawlerOf(eng, v), token, CheckedKinds);
    Ok(HasAttr(field[0], "checked"))
  }

  /**
   * For a plain field name, `seeIsChecked` answers for the first checkbox in
   * document order carrying that name or id, and raises exactly when there
   * is none.
   */
  lemma IsCheckedFirstCheckbox(eng: Engine, v: View, token: string)
    requires IsPlainName(FieldName(token))
    ensures var all := PreorderAll(CrawlerOf(eng, v));
      forall i :: FirstAt(all, i, NamedTest(FieldName(token), CheckedKinds)) ==>
        IsChecked(eng, v, token) == Ok(HasAttr(all[i], "checked"))
    ensures var all := PreorderAll(CrawlerOf(eng, v));
      IsChecked(eng, v, token).Err? <==> forall m :: m in all ==> !MatchesNameOrId(m, FieldName(token), CheckedKinds)
  {
    var all := PreorderAll(CrawlerOf(eng, v));
    var p := NamedTest(FieldName(token), CheckedKinds);
    var f := Field(eng, CrawlerOf(eng, v), token, CheckedKinds);
    forall j | FirstAt(all, j, p) ensures IsChecked(eng, v, token) == Ok(HasAttr(all[j], "checked")) {
      assert all[j] in all;
      var i :| FirstAt(all, i, p) && f.value[0] == all[i];
      FirstAtUnique(all, i, j, p);
    }
  }

  /** An element carrying `selected`. */
  predicate Chosen(n: Node)
  {
    n.Element? && HasAttr(n, "selected")
  }

  /** An element carrying `checked`. */
  predicate Ticked(n: Node)
  {
    n.Element? && HasAttr(n, "checked")
  }

  /** `getOptionValue`: the `value` attribute when present, the text otherwise. */
  function OptionValue(option: Node): (r: string)
    ensures HasAttr(option, "value") ==> Attr(option, "value") == Some(r)
    ensures !HasAttr(option, "value") ==> r == TextContent(option)
  {
    if HasAttr(option, "value") then GetAttribute(option, "value") else TextContent(option)
  }

  /** `children()`: the element children of a node. */
  function ElementChildren(n: Node): seq<Node>
  {
    if n.Element? then Where(n.children, (c: Node) => c.Element?) else []
  }

  /** What one child of a select contributes: an optgroup its chosen element children, any other child itself when chosen. */
  function Contributed(child: Node): seq<Node>
  {
    if IsElementNamed(child, "optgroup") then Where(child.children, Chosen)
    else if Chosen(child) then [child]
    else []
  }

  /** The chosen options of a select's children, in document order. */
  function SelectedOptions(children: seq<Node>): (r: seq<Node>)
    ensures forall o :: o in r <==> exists i :: 0 <= i < |children| && o in Contributed(children[i])
  {
    if |children| == 0 then []
    else
      var rest := SelectedOptions(children[1..]);
      assert forall i :: 0 < i < |children| ==> children[i] == children[1..][i - 1];
      Contributed(children[0]) + rest
  }

  /** Position `i` holds the first ticked element of `group`. */
  predicate FirstTickedAt(group: seq<Node>, i: int)
  {
    0 <= i < |group| && Ticked(group[i]) && forall j :: 0 <= j < i ==> !Ticked(group[j])
  }

  lemma FirstTickedShift(group: seq<Node>)
    requires |group| > 0 && !Ticked(group[0])
    ensures forall i :: FirstTickedAt(group[1..], i) ==> FirstTickedAt(group, i + 1)
  {
    forall i | FirstTickedAt(group[1..], i) ensures FirstTickedAt(group, i + 1) {
      forall j | 0 <= j < i + 1 ensures !Ticked(group[j]) {
        if j > 0 { assert group[j] == group[1..][j - 1]; }
      }
    }
  }

  /** `getCheckedValueFromRadioGroup`: the `value` of the first ticked element, if any. */
  function CheckedValue(group: seq<Node>): (r: Option<string>)
    ensures r.None? <==> forall i :: 0 <= i < |group| ==> !Ticked(group[i])
    ensures r.Some? ==> exists i :: FirstTickedAt(group, i) && r.value == GetAttribute(group[i], "value")
  {
    if |group| == 0 then None
    else if Ticked(group[0]) then
      assert FirstTickedAt(group, 0);
      Some(GetAttribute(group[0], "value"))
    else
      assert forall i :: 0 < i < |group| ==> group[i] == group[1..][i - 1];
      FirstTickedShift(group);
      CheckedValue(group[1..])
  }

  /**
   * `getSelectedValue`: the values of the chosen options when the first node
   * is a select, otherwise the one-element list holding the radio group's
   * checked value (null when none is checked).
   */
  function SelectedValue(field: seq<Node>): (r: seq<Option<string>>)
    requires |field| > 0
    ensures IsElementNamed(field[0], "select") ==>
      forall x :: Some(x) in r <==> exists o :: o in SelectedOptions(ElementChildren(field[0])) && OptionValue(o) == x
    ensures !IsElementNamed(field[0], "select") ==> r == [CheckedValue(field)]
  {
    if IsElementNamed(field[0], "select") then OptionValues(SelectedOptions(ElementChildren(field[0])))
    else [CheckedValue(field)]
  }

  /** What `getSelectedValueFromSelect` collects: `getOptionValue` of each selected option, in order. */
  function OptionValues(options: seq<Node>): (r: seq<Option<string>>)
    ensures forall x :: Some(x) in r <==> exists o :: o in options && OptionValue(o) == x
  {
    if |options| == 0 then []
    else
      assert forall o :: o in options <==> o == options[0] || o in options[1..];
      [Some(OptionValue(options[0]))] + OptionValues(options[1..])
  }

  /** `IsSelected::matches`: the value is, strictly, among the selected values. */
  function IsSelected(eng: Engine, v: View, token: string, value: string): (r: Result<bool>)
    ensures r.Ok? <==> Field(eng, CrawlerOf(eng, v), token, SelectedKinds).Ok?
    ensures r.Ok? ==> var field := Field(eng, CrawlerOf(eng, v), token, SelectedKinds).value;
      if IsElementNamed(field[0], "select") then
        r.value <==> exists o :: o in SelectedOptions(ElementChildren(field[0])) && OptionValue(o) == value
      else
        r.value <==> CheckedValue(field) == Some(value)
  {
    var field :- Field(eng, CrawlerOf(eng, v), token, SelectedKinds);
    Ok(Some(value) in SelectedValue(field))
  }

  /** A radio group with nothing checked selects no value at all. */
  lemma NoneCheckedSelectsNothing(eng: Engine, v: View, token: string, value: string)
    requires Field(eng, CrawlerOf(eng, v), token, SelectedKinds).Ok?
    requires var field := Field(eng, CrawlerOf(eng, v), token, SelectedKinds).value;
      !IsElementNamed(field[0], "select") && forall i :: 0 <= i < |field| ==> !Ticked(field[i])
    ensures IsSelected(eng, v, token, value) == Ok(false)
  {
  }
}
