/** `build_form_payload` of the APD scraper (Data/parser_AMP6_DB.py): the
    `(name, value)` pairs a browser would submit for the search form.  A form
    is given as its `<input>`, `<select>` and `<textarea>` elements in document
    order, each reduced to the attributes and text the payload reads. */
module FormPayload {
  import opened Wrappers
  import opened Text

  /** An `<input>`: its `name`, `type` and `value` attributes, each possibly
      absent, and whether it carries the `checked` attribute. */
  datatype Input = Input(name: Option<string>, kind: Option<string>, value: Option<string>, checked: bool)

  /** An `<option>`: its `value` attribute, its text nodes and whether it
      carries the `selected` attribute. */
  datatype Choice = Choice(value: Option<string>, texts: seq<string>, selected: bool)

  /** A `<select>` with its options in document order. */
  datatype Select = Select(name: Option<string>, options: seq<Choice>)

  /** A `<textarea>` and its text. */
  datatype TextArea = TextArea(name: Option<string>, text: string)

  datatype Form = Form(inputs: seq<Input>, selects: seq<Select>, areas: seq<TextArea>)

  type Pair = (string, string)

  /** The attribute that makes `if not name: continue` go on: present and non-empty. */
  predicate Named(name: Option<string>) {
    name.Some? && name.value != ""
  }

  /** `(inp.get("type") or "text").lower()`. */
  function InputType(inp: Input): string {
    if inp.kind.None? || inp.kind.value == "" then "text" else Lower(inp.kind.value)
  }

  predicate IsButton(t: string) { t == "submit" || t == "button" || t == "image" }
  predicate IsCheckable(t: string) { t == "checkbox" || t == "radio" }

  /** The pair one `<input>` contributes, if any. */
  function InputPair(inp: Input): Option<Pair> {
    if !Named(inp.name) then None
    else
      var t := InputType(inp);
      if IsButton(t) then (if inp.value.Some? then Some((inp.name.value, inp.value.value)) else None)
      else if IsCheckable(t) then (if inp.checked then Some((inp.name.value, inp.value.GetOr("on"))) else None)
      else Some((inp.name.value, inp.value.GetOr("")))
  }

  /** `get_text(strip=True)`: every text node stripped, concatenated. */
  function StrippedText(texts: seq<string>): string {
    if texts == [] then [] else StrippedText(texts[..|texts| - 1]) + Strip(texts[|texts| - 1], IsSpace)
  }

  /** The index of the first option carrying `selected`, if any. */
  function FirstSelected(options: seq<Choice>): (k: Option<nat>)
    ensures k.Some? ==> k.value < |options| && options[k.value].selected
    ensures k.Some? ==> forall j :: 0 <= j < k.value ==> !options[j].selected
    ensures k.None? ==> forall j :: 0 <= j < |options| ==> !options[j].selected
  {
    if options == [] then None
    else if options[0].selected then Some(0)
    else
      var k := FirstSelected(options[1..]);
      if k.Some? then Some(k.value + 1) else None
  }

  /** `sel.select_one("option[selected]") or sel.select_one("option")`. */
  function Chosen(options: seq<Choice>): (c: Option<Choice>)
    ensures c.None? <==> options == []
    ensures c.Some? && c.value.selected ==> exists j :: 0 <= j < |options| && options[j] == c.value
                                                  && forall i :: 0 <= i < j ==> !options[i].selected
    ensures c.Some? && !c.value.selected ==> c.value == options[0] && forall i :: 0 <= i < |options| ==> !options[i].selected
  {
    var k := FirstSelected(options);
    if k.Some? then Some(options[k.value])
    else if options == [] then None
    else Some(options[0])
  }

  /** `opt.get("value") or opt.get_text(strip=True)`. */
  function ChoiceValue(c: Choice): string {
    if c.value.Some? && c.value.value != "" then c.value.value else StrippedText(c.texts)
  }

  /** The pair one `<select>` contributes, if any. */
  function SelectPair(sel: Select): Option<Pair> {
    if !Named(sel.name) then None
    else
      var c := Chosen(sel.options);
      if c.None? then Some((sel.name.value, "")) else Some((sel.name.value, ChoiceValue(c.value)))
  }

  /** The pair one `<textarea>` contributes, if any. */
  function AreaPair(ta: TextArea): Option<Pair> {
    if !Named(ta.name) then None else Some((ta.name.value, ta.text))
  }

  /** The pairs a sequence of controls contributes, in order. */
  function Harvest<T>(xs: seq<T>, pair: T -> Option<Pair>): (ps: seq<Pair>)
    ensures |ps| <= |xs|
  {
    if xs == [] then []
    else
      var last := pair(xs[|xs| - 1]);
      Harvest(xs[..|xs| - 1], pair) + (if last.Some? then [last.value] else [])
  }

  /** The payload: all input pairs, then all select pairs, then all textarea pairs. */
  function Payload(form: Form): seq<Pair> {
    Harvest(form.inputs, InputPair) + Harvest(form.selects, SelectPair) + Harvest(form.areas, AreaPair)
  }

  /** One loop of `build_form_payload`: appends the pairs of `xs` to `data`. */
  method AppendPairs<T>(data: seq<Pair>, xs: seq<T>, pair: T -> Option<Pair>) returns (out: seq<Pair>)
    ensures out == data + Harvest(xs, pair)
  {
    out := data;
    for i := 0 to |xs|
      invariant out == data + Harvest(xs[..i], pair)
    {
      assert xs[..i + 1][..i] == xs[..i];
      var p := pair(xs[i]);
      if p.Some? {
        out := out + [p.value];
      }
    }
    assert xs[..|xs|] == xs;
  }

  /** `build_form_payload`. */
  method BuildFormPayload(form: Form) returns (data: seq<Pair>)
    ensures data == Payload(form)
  {
    data := AppendPairs([], form.inputs, InputPair);
    data := AppendPairs(data, form.selects, SelectPair);
    data := AppendPairs(data, form.areas, AreaPair);
  }

  // ---------------------------------------------------------------------
  // What the payload holds
  // ---------------------------------------------------------------------

  /** Every pair of a harvest comes from one of the controls, in the same order. */
  lemma {:induction false} HarvestFrom<T>(xs: seq<T>, pair: T -> Option<Pair>, k: nat)
    requires k < |Harvest(xs, pair)|
    ensures exists j :: 0 <= j < |xs| && pair(xs[j]) == Some(Harvest(xs, pair)[k])
    decreases |xs|
  {
    var init := Harvest(xs[..|xs| - 1], pair);
    if k < |init| {
      HarvestFrom(xs[..|xs| - 1], pair, k);
      var j :| 0 <= j < |xs| - 1 && pair(xs[..|xs| - 1][j]) == Some(init[k]);
      assert xs[..|xs| - 1][j] == xs[j];
    }
  }

  /** A control that contributes a pair puts it in the harvest. */
  lemma {:induction false} HarvestHas<T>(xs: seq<T>, pair: T -> Option<Pair>, j: nat)
    requires j < |xs| && pair(xs[j]).Some?
    ensures pair(xs[j]).value in Harvest(xs, pair)
    decreases |xs|
  {
    if j < |xs| - 1 {
      HarvestHas(xs[..|xs| - 1], pair, j);
      assert xs[..|xs| - 1][j] == xs[j];
    }
  }

  /** The three loops in order: the payload opens with the inputs' pairs,
      followed by the selects' pairs, and ends with the textareas' pairs. */
  lemma PayloadOrder(form: Form)
    ensures var a, b := |Harvest(form.inputs, InputPair)|, |Harvest(form.selects, SelectPair)|;
      a + b <= |Payload(form)|
      && Payload(form)[..a] == Harvest(form.inputs, InputPair)
      && Payload(form)[a..a + b] == Harvest(form.selects, SelectPair)
      && Payload(form)[a + b..] == Harvest(form.areas, AreaPair)
  {
  }

  /** The rules for one `<input>`: unnamed ones are skipped; checkboxes and
      radios count only when checked, valued "on" by default; submit, button
      and image inputs count only with a value; the rest default to "". */
  lemma InputRules(inp: Input)
    ensures !Named(inp.name) ==> InputPair(inp).None?
    ensures InputPair(inp).Some? ==> InputPair(inp).value.0 == inp.name.value != ""
    ensures Named(inp.name) && IsCheckable(InputType(inp)) ==>
      (InputPair(inp).Some? <==> inp.checked)
      && (inp.checked ==> InputPair(inp).value.1 == if inp.value.Some? then inp.value.value else "on")
    ensures Named(inp.name) && IsButton(InputType(inp)) ==>
      (InputPair(inp).Some? <==> inp.value.Some?)
      && (inp.value.Some? ==> InputPair(inp).value.1 == inp.value.value)
    ensures Named(inp.name) && !IsButton(InputType(inp)) && !IsCheckable(InputType(inp)) ==>
      InputPair(inp).Some? && InputPair(inp).value.1 == if inp.value.Some? then inp.value.value else ""
  {
  }

  /** The type is matched whatever its case: `type="CHECKBOX"` is a checkbox,
      and a missing or empty type is a text input. */
  lemma InputTypeIgnoresCase(inp: Input)
    ensures InputType(inp) == Lower(InputType(inp))
    ensures inp.kind.None? || inp.kind == Some("") ==> InputType(inp) == "text"
  {
    if inp.kind.Some? && inp.kind.value != "" {
      LowerFixed(Lower(inp.kind.value));
    }
  }

  /** The rules for one `<select>`: unnamed ones are skipped; otherwise the
      first selected option, else the first option, gives the value, which is
      the option's `value` attribute or, when that is missing or empty, its
      stripped text; no option at all gives "". */
  lemma SelectRules(sel: Select)
    ensures !Named(sel.name) ==> SelectPair(sel).None?
    ensures Named(sel.name) ==> SelectPair(sel).Some? && SelectPair(sel).value.0 == sel.name.value
    ensures Named(sel.name) && sel.options == [] ==> SelectPair(sel).value.1 == ""
    ensures Named(sel.name) && sel.options != [] ==>
      exists j :: 0 <= j < |sel.options|
        && (forall i :: 0 <= i < j ==> !sel.options[i].selected)
        && (sel.options[j].selected || j == 0)
        && (j > 0 ==> sel.options[j].selected)
        && SelectPair(sel).value.1 == ChoiceValue(sel.options[j])
  {
    if Named(sel.name) && sel.options != [] {
      var c := Chosen(sel.options);
      if c.value.selected {
        var j :| 0 <= j < |sel.options| && sel.options[j] == c.value
                 && forall i :: 0 <= i < j ==> !sel.options[i].selected;
        assert SelectPair(sel).value.1 == ChoiceValue(sel.options[j]);
      } else {
        assert SelectPair(sel).value.1 == ChoiceValue(sel.options[0]);
      }
    }
  }

  /** The value of an option: its `value` attribute unless that is missing or
      empty, else its text with whitespace stripped from every text node. */
  lemma ChoiceValueRule(c: Choice)
    ensures c.value.Some? && c.value.value != "" ==> ChoiceValue(c) == c.value.value
    ensures c.value.None? || c.value == Some("") ==> ChoiceValue(c) == StrippedText(c.texts)
    ensures c.value.None? && |c.texts| == 1 ==> NoEdge(ChoiceValue(c), IsSpace)
  {
    if c.value.None? && |c.texts| == 1 {
      assert c.texts[..0] == [];
    }
  }

  /** Every pair of the payload names a control that has a non-empty name. */
  lemma PayloadNamed(form: Form, k: nat)
    requires k < |Payload(form)|
    ensures Payload(form)[k].0 != ""
  {
    var a, b := |Harvest(form.inputs, InputPair)|, |Harvest(form.selects, SelectPair)|;
    PayloadOrder(form);
    if k < a {
      HarvestFrom(form.inputs, InputPair, k);
    } else if k < a + b {
      HarvestFrom(form.selects, SelectPair, k - a);
    } else {
      HarvestFrom(form.areas, AreaPair, k - a - b);
    }
  }

  /** Every named select and every named textarea contributes a pair. */
  lemma NamedControlsCount(form: Form)
    ensures forall j :: 0 <= j < |form.selects| && Named(form.selects[j].name) ==>
      SelectPair(form.selects[j]).value in Payload(form)
    ensures forall j :: 0 <= j < |form.areas| && Named(form.areas[j].name) ==>
      AreaPair(form.areas[j]).value in Payload(form)
  {
    forall j | 0 <= j < |form.selects| && Named(form.selects[j].name)
      ensures SelectPair(form.selects[j]).value in Payload(form)
    {
      HarvestHas(form.selects, SelectPair, j);
    }
    forall j | 0 <= j < |form.areas| && Named(form.areas[j].name)
      ensures AreaPair(form.areas[j]).value in Payload(form)
    {
      HarvestHas(form.areas, AreaPair, j);
    }
  }
}
