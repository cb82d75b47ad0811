/**
 Reading and printing one field of a data form (src/ui/data_forms.rs,
 `FormField::from_element` and `to_element`; XEP-0004, section 3.2). XML elements
 are values: a name, a namespace, attributes, and children that are elements or text.
 */
module DataForms {
  import opened Wrappers

  const NS_DATA: string := "jabber:x:data"

  datatype Element = Element(name: string, ns: string, attrs: map<string, string>, nodes: seq<Node>)
  datatype Node = Child(element: Element) | Text(text: string)

  function Attr(el: Element, name: string): Option<string> {
    if name in el.attrs then Some(el.attrs[name]) else None
  }

  /** `children`: the child elements, in order. */
  function Children(el: Element): seq<Element> { ChildElements(el.nodes) }

  function ChildElements(nodes: seq<Node>): seq<Element> {
    if nodes == [] then []
    else ChildElements(nodes[..|nodes| - 1]) + match nodes[|nodes| - 1] case Child(c) => [c] case Text(_) => []
  }

  /** `text`: the text directly inside the element. */
  function TextOf(el: Element): string { TextNodes(el.nodes) }

  function TextNodes(nodes: seq<Node>): string {
    if nodes == [] then ""
    else TextNodes(nodes[..|nodes| - 1]) + match nodes[|nodes| - 1] case Child(_) => "" case Text(t) => t
  }

  function AppendChild(el: Element, child: Element): Element {
    el.(nodes := el.nodes + [Child(child)])
  }

  function FindNamed(elements: seq<Element>, name: string): Option<Element> {
    if elements == [] then None
    else if elements[0].name == name then Some(elements[0])
    else FindNamed(elements[1..], name)
  }

  // ---------------------------------------------------------------------
  // Fields
  // ---------------------------------------------------------------------

  datatype FieldType =
    | TextSingle | TextPrivate | TextMulti | Boolean | ListSingle
    | ListMulti | Fixed | Hidden | JidSingle | JidMulti

  datatype FormField = FormField(
    variable: Option<string>, fieldType: FieldType, labelText: Option<string>,
    value: Option<string>, required: bool, options: seq<(string, string)>)

  function TypeName(t: FieldType): string {
    match t
    case TextSingle => "text-single"
    case TextPrivate => "text-private"
    case TextMulti => "text-multi"
    case Boolean => "boolean"
    case ListSingle => "list-single"
    case ListMulti => "list-multi"
    case Fixed => "fixed"
    case Hidden => "hidden"
    case JidSingle => "jid-single"
    case JidMulti => "jid-multi"
  }

  /** An absent or unknown type reads as a single line of text. */
  function TypeOfName(name: Option<string>): (t: FieldType)
    ensures t == TextSingle || name == Some(TypeName(t))
    ensures forall known: FieldType :: name == Some(TypeName(known)) ==> t == known
  {
    match name
    case None => TextSingle
    case Some(n) =>
      if n == "text-private" then TextPrivate
      else if n == "text-multi" then TextMulti
      else if n == "boolean" then Boolean
      else if n == "list-single" then ListSingle
      else if n == "list-multi" then ListMulti
      else if n == "fixed" then Fixed
      else if n == "hidden" then Hidden
      else if n == "jid-single" then JidSingle
      else if n == "jid-multi" then JidMulti
      else TextSingle
  }

  function ValueOf(children: seq<Element>): Option<string> {
    match FindNamed(children, "value")
    case None => None
    case Some(v) => Some(TextOf(v))
  }

  /** One option element: skipped without a value, labelled with its value without a label. */
  function OptionOf(child: Element): seq<(string, string)> {
    if child.name != "option" then []
    else match ValueOf(Children(child))
      case None => []
      case Some(value) => [(if Attr(child, "label").Some? then Attr(child, "label").value else value, value)]
  }

  function OptionsOf(children: seq<Element>): seq<(string, string)> {
    if children == [] then []
    else OptionsOf(children[..|children| - 1]) + OptionOf(children[|children| - 1])
  }

  function FromElement(el: Element): FormField {
    FormField(
      Attr(el, "var"), TypeOfName(Attr(el, "type")), Attr(el, "label"),
      ValueOf(Children(el)), FindNamed(Children(el), "required").Some?, OptionsOf(Children(el)))
  }

  // ---------------------------------------------------------------------
  // Printing
  // ---------------------------------------------------------------------

  function WithText(name: string, text: string): Element {
    Element(name, NS_DATA, map[], [Text(text)])
  }

  function OptionElement(option: (string, string)): Element {
    Element("option", NS_DATA, map["label" := option.0], [Child(WithText("value", option.1))])
  }

  function HeadElement(f: FormField): Element {
    Element("field", NS_DATA,
      map["type" := TypeName(f.fieldType)]
      + (if f.variable.Some? then map["var" := f.variable.value] else map[])
      + (if f.labelText.Some? then map["label" := f.labelText.value] else map[]),
      [])
  }

  function BodyElement(f: FormField): Element {
    var withValue :=
      if f.value.Some? then AppendChild(HeadElement(f), WithText("value", f.value.value)) else HeadElement(f);
    if f.required then AppendChild(withValue, Element("required", NS_DATA, map[], [])) else withValue
  }

  function WithOptions(el: Element, options: seq<(string, string)>): Element {
    if options == [] then el
    else AppendChild(WithOptions(el, options[..|options| - 1]), OptionElement(options[|options| - 1]))
  }

  function FieldElement(f: FormField): Element { WithOptions(BodyElement(f), f.options) }

  /** Prints a field; reading what it printed gives the field back. */
  method ToElement(f: FormField) returns (element: Element)
    ensures element == FieldElement(f)
    ensures FromElement(element) == f
  {
    hide FromElement;
    var attrs := map["type" := TypeName(f.fieldType)];
    if f.variable.Some? {
      attrs := attrs["var" := f.variable.value];
    }
    if f.labelText.Some? {
      attrs := attrs["label" := f.labelText.value];
    }
    element := Element("field", NS_DATA, attrs, []);
    assert element == HeadElement(f);
    if f.value.Some? {
      element := AppendChild(element, WithText("value", f.value.value));
    }
    if f.required {
      element := AppendChild(element, Element("required", NS_DATA, map[], []));
    }
    for i := 0 to |f.options|
      invariant element == WithOptions(BodyElement(f), f.options[..i])
    {
      var (labelText, value) := f.options[i];
      var opt := Element("option", NS_DATA, map["label" := labelText], []);
      opt := AppendChild(opt, WithText("value", value));
      assert opt == OptionElement(f.options[i]);
      assert f.options[..i + 1][..i] == f.options[..i];
      element := AppendChild(element, opt);
    }
    assert f.options[..|f.options|] == f.options;
    RoundTrip(f);
  }

  // ---------------------------------------------------------------------
  // Round trip
  // ---------------------------------------------------------------------

  lemma {:induction false} FindNamedSnoc(elements: seq<Element>, last: Element, name: string)
    ensures FindNamed(elements + [last], name)
         == if FindNamed(elements, name).Some? then FindNamed(elements, name)
            else if last.name == name then Some(last) else None
  {
    if elements != [] {
      FindNamedSnoc(elements[1..], last, name);
      assert (elements + [last])[1..] == elements[1..] + [last];
    }
  }

  lemma ChildrenOfAppended(el: Element, child: Element)
    ensures Children(AppendChild(el, child)) == Children(el) + [child]
  {
    assert (el.nodes + [Child(child)])[..|el.nodes|] == el.nodes;
  }

  /** What one more child changes in what is read. */
  lemma AppendedChildRead(el: Element, child: Element)
    ensures var f := FromElement(el);
      FromElement(AppendChild(el, child)) ==
        f.(value := if f.value.None? && child.name == "value" then Some(TextOf(child)) else f.value,
           required := f.required || child.name == "required",
           options := f.options + OptionOf(child))
  {
    ChildrenOfAppended(el, child);
    var children := Children(el);
    assert (children + [child])[..|children|] == children;
    FindNamedSnoc(children, child, "value");
    FindNamedSnoc(children, child, "required");
    hide OptionOf, TypeOfName, TextOf;
  }

  lemma TypeRoundTrip(t: FieldType)
    ensures TypeOfName(Some(TypeName(t))) == t
  {}

  lemma HeadRead(f: FormField)
    ensures FromElement(HeadElement(f)) == f.(value := None, required := false, options := [])
  {
    TypeRoundTrip(f.fieldType);
    hide TypeOfName, TypeName;
    var attrs := HeadElement(f).attrs;
    assert "type" in attrs && attrs["type"] == TypeName(f.fieldType);
    assert "var" in attrs <==> f.variable.Some?;
    assert "label" in attrs <==> f.labelText.Some?;
  }

  lemma TextRead(name: string, text: string)
    ensures TextOf(WithText(name, text)) == text
  {
    var nodes := [Text(text)];
    assert nodes[..0] == [];
    assert TextNodes(nodes) == "" + text == text;
  }

  lemma OptionRead(option: (string, string))
    ensures OptionOf(OptionElement(option)) == [option]
  {
    var value := WithText("value", option.1);
    TextRead("value", option.1);
    var nodes := [Child(value)];
    assert nodes[..0] == [];
    assert ChildElements(nodes) == [] + [value] == [value];
    assert Children(OptionElement(option)) == [value];
  }

  lemma BodyRead(f: FormField)
    ensures FromElement(BodyElement(f)) == f.(options := [])
  {
    HeadRead(f);
    hide FromElement, HeadElement;
    if f.value.Some? {
      AppendedChildRead(HeadElement(f), WithText("value", f.value.value));
      TextRead("value", f.value.value);
    }
    var withValue :=
      if f.value.Some? then AppendChild(HeadElement(f), WithText("value", f.value.value)) else HeadElement(f);
    AppendedChildRead(withValue, Element("required", NS_DATA, map[], []));
  }

  lemma {:induction false} OptionsRead(el: Element, options: seq<(string, string)>)
    requires FromElement(el).options == []
    ensures FromElement(WithOptions(el, options)) == FromElement(el).(options := options)
  {
    hide FromElement, OptionElement;
    if options != [] {
      var n := |options| - 1;
      OptionsRead(el, options[..n]);
      AppendedChildRead(WithOptions(el, options[..n]), OptionElement(options[n]));
      OptionRead(options[n]);
      OptionElementName(options[n]);
      assert options == options[..n] + [options[n]];
    }
  }

  lemma OptionElementName(option: (string, string))
    ensures OptionElement(option).name == "option"
  {}

  /** Reading a printed field gives the field back, with every option in order. */
  lemma RoundTrip(f: FormField)
    ensures FromElement(FieldElement(f)) == f
  {
    BodyRead(f);
    OptionsRead(BodyElement(f), f.options);
  }

  /** Whatever element is read, printing and reading again changes nothing any more. */
  lemma ReprintIsFixed(el: Element)
    ensures var printed := FieldElement(FromElement(el));
      && FromElement(printed) == FromElement(el)
      && FieldElement(FromElement(printed)) == printed
  {
    RoundTrip(FromElement(el));
  }

  /** An option without a label is shown by its value; an option without a value is not read at all. */
  lemma BareOptionsRead(el: Element, value: string, attrs: map<string, string>)
    ensures FromElement(AppendChild(el, Element("option", NS_DATA, map[], [Child(WithText("value", value))])))
         == FromElement(el).(options := FromElement(el).options + [(value, value)])
    ensures FromElement(AppendChild(el, Element("option", NS_DATA, attrs, []))) == FromElement(el)
  {
    var bare := Element("option", NS_DATA, map[], [Child(WithText("value", value))]);
    AppendedChildRead(el, bare);
    AppendedChildRead(el, Element("option", NS_DATA, attrs, []));
    TextRead("value", value);
    assert bare.nodes[..0] == [];
    assert Children(bare) == [] + [WithText("value", value)] == [WithText("value", value)];
    hide FromElement;
  }

  // ---------------------------------------------------------------------
  // What is printed
  // ---------------------------------------------------------------------

  /** An element of the form namespace with one piece of text inside. */
  predicate IsTextElement(el: Element, name: string, text: string) {
    el.name == name && el.ns == "jabber:x:data" && el.attrs == map[] && el.nodes == [Text(text)]
  }

  predicate IsOptionElement(el: Element, labelText: string, value: string) {
    && el.name == "option" && el.ns == "jabber:x:data" && el.attrs == map["label" := labelText]
    && |el.nodes| == 1 && el.nodes[0].Child? && IsTextElement(el.nodes[0].element, "value", value)
  }

  /** The nodes are option elements, one for each option and in their order. */
  predicate AreOptions(nodes: seq<Node>, options: seq<(string, string)>) {
    && |nodes| == |options|
    && forall k | 0 <= k < |options| ::
         nodes[k].Child? && IsOptionElement(nodes[k].element, options[k].0, options[k].1)
  }

  /** The attributes of a printed field: its type always, variable and label if it has them. */
  predicate HasFieldAttrs(attrs: map<string, string>, f: FormField) {
    && attrs.Keys == {"type"} + (if f.variable.Some? then {"var"} else {})
                     + (if f.labelText.Some? then {"label"} else {})
    && attrs["type"] == TypeName(f.fieldType)
    && (f.variable.Some? ==> attrs["var"] == f.variable.value)
    && (f.labelText.Some? ==> attrs["label"] == f.labelText.value)
  }

  /**
   A field is printed as XEP-0004 wants it: a `field` element with its attributes, then
   the value and the flag it has, then its options in order, each with its label and value.
   */
  lemma PrintedShape(f: FormField)
    ensures var el, values, flags := FieldElement(f), if f.value.Some? then 1 else 0, if f.required then 1 else 0;
      && el.name == "field" && el.ns == "jabber:x:data" && HasFieldAttrs(el.attrs, f)
      && |el.nodes| >= values + flags
      && (f.value.Some? ==> el.nodes[0].Child? && IsTextElement(el.nodes[0].element, "value", f.value.value))
      && (f.required ==> el.nodes[values] == Child(Element("required", "jabber:x:data", map[], [])))
      && AreOptions(el.nodes[values + flags..], f.options)
  {
    AppendedOptions(BodyElement(f), f.options);
    var el, body := FieldElement(f), BodyElement(f);
    HeadHasAttrs(f);
    BodyNodes(f);
    hide WithOptions, HasFieldAttrs, AreOptions, IsTextElement, BodyElement;
    assert forall k | 0 <= k < |body.nodes| :: el.nodes[k] == body.nodes[k];
  }

  lemma BodyNodes(f: FormField)
    ensures var body, values, flags := BodyElement(f), if f.value.Some? then 1 else 0, if f.required then 1 else 0;
      && body.(nodes := []) == HeadElement(f).(nodes := [])
      && |body.nodes| == values + flags
      && (f.value.Some? ==> body.nodes[0].Child? && IsTextElement(body.nodes[0].element, "value", f.value.value))
      && (f.required ==> body.nodes[values] == Child(Element("required", "jabber:x:data", map[], [])))
  {
    HeadHasAttrs(f);
    hide HeadElement;
  }

  lemma HeadHasAttrs(f: FormField)
    ensures var head := HeadElement(f);
      head.name == "field" && head.ns == "jabber:x:data" && head.nodes == [] && HasFieldAttrs(head.attrs, f)
  {
    hide TypeName;
  }

  lemma {:induction false} AppendedOptions(el: Element, options: seq<(string, string)>)
    ensures var r := WithOptions(el, options);
      && r.(nodes := []) == el.(nodes := [])
      && el.nodes <= r.nodes && AreOptions(r.nodes[|el.nodes|..], options)
  {
    if options != [] {
      var n := |options| - 1;
      AppendedOptions(el, options[..n]);
      OptionIsOption(options[n]);
      var before, after := WithOptions(el, options[..n]), WithOptions(el, options);
      assert after.nodes == before.nodes + [Child(OptionElement(options[n]))];
      hide WithOptions, IsOptionElement, OptionElement;
      assert after.nodes[|el.nodes|..] == before.nodes[|el.nodes|..] + [Child(OptionElement(options[n]))];
    }
  }

  lemma OptionIsOption(option: (string, string))
    ensures IsOptionElement(OptionElement(option), option.0, option.1)
  {}

  /** The ten types have the names that XEP-0004, section 3.3, gives them. */
  lemma TypeNamesOfForms(t: FieldType)
    ensures (t, TypeName(t)) in {
              (TextSingle, "text-single"), (TextPrivate, "text-private"), (TextMulti, "text-multi"),
              (Boolean, "boolean"), (ListSingle, "list-single"), (ListMulti, "list-multi"), (Fixed, "fixed"),
              (Hidden, "hidden"), (JidSingle, "jid-single"), (JidMulti, "jid-multi") }
  {}

  // ---------------------------------------------------------------------
  // Several values
  // ---------------------------------------------------------------------

  /** All values of a field, which list-multi, text-multi and jid-multi may have several of. */
  function Values(children: seq<Element>): seq<string> {
    if children == [] then []
    else
      var last := children[|children| - 1];
      Values(children[..|children| - 1]) + if last.name == "value" then [TextOf(last)] else []
  }

  function FirstOnly(values: seq<string>): seq<string> {
    if values == [] then [] else values[..1]
  }

  lemma AppendedValues(el: Element, child: Element)
    ensures Values(Children(AppendChild(el, child)))
         == Values(Children(el)) + if child.name == "value" then [TextOf(child)] else []
  {
    ChildrenOfAppended(el, child);
    var children := Children(el);
    assert (children + [child])[..|children|] == children;
    hide Children, TextOf;
  }

  /** What is read is the first value. */
  lemma {:induction false} FirstValueRead(children: seq<Element>)
    ensures FirstOnly(Values(children)) == match ValueOf(children) case None => [] case Some(v) => [v]
  {
    hide TextOf;
    if children != [] {
      var n := |children| - 1;
      FirstValueRead(children[..n]);
      FindNamedSnoc(children[..n], children[n], "value");
      assert children == children[..n] + [children[n]];
    }
  }

  /** An option is read if it has a value, the first of which counts, and is labelled with it for want of a label. */
  lemma OptionReadIs(child: Element)
    ensures var values := Values(Children(child));
      OptionOf(child) ==
        if child.name != "option" || values == [] then []
        else [(if "label" in child.attrs then child.attrs["label"] else values[0], values[0])]
  {
    FirstValueRead(Children(child));
    hide Children, Values;
  }

  /** All text directly inside an element is read, and all child elements, both in order. */
  lemma NodeRead(el: Element, node: Node)
    ensures var more := el.(nodes := el.nodes + [node]);
      && TextOf(more) == TextOf(el) + (match node case Text(text) => text case Child(_) => "")
      && Children(more) == Children(el) + (match node case Text(_) => [] case Child(child) => [child])
  {
    assert (el.nodes + [node])[..|el.nodes|] == el.nodes;
  }

  lemma {:induction false} OptionsHaveNoValues(el: Element, options: seq<(string, string)>)
    ensures Values(Children(WithOptions(el, options))) == Values(Children(el))
  {
    hide Children, Values;
    if options != [] {
      var n := |options| - 1;
      OptionsHaveNoValues(el, options[..n]);
      AppendedValues(WithOptions(el, options[..n]), OptionElement(options[n]));
    }
  }

  lemma PrintedValues(f: FormField)
    ensures Values(Children(FieldElement(f))) == match f.value case None => [] case Some(v) => [v]
  {
    hide Children, Values, TextOf, AppendChild, HeadElement, WithText;
    OptionsHaveNoValues(BodyElement(f), f.options);
    var head := HeadElement(f);
    EmptyHasNoValues(head) by { HeadIsEmpty(f); }
    if f.value.Some? {
      AppendedValues(head, WithText("value", f.value.value));
      TextRead("value", f.value.value);
      ValueElementName(f.value.value);
    }
    var withValue := if f.value.Some? then AppendChild(head, WithText("value", f.value.value)) else head;
    AppendedValues(withValue, Element("required", NS_DATA, map[], []));
  }

  lemma HeadIsEmpty(f: FormField)
    ensures HeadElement(f).nodes == []
  {}

  lemma ValueElementName(text: string)
    ensures WithText("value", text).name == "value"
  {}

  /** Reading and printing a field keeps its values exactly when it has at most one; it always keeps the first. */
  lemma ValuesKeptIff(el: Element)
    ensures var printed := Values(Children(FieldElement(FromElement(el))));
      && printed == FirstOnly(Values(Children(el)))
      && (printed == Values(Children(el)) <==> |Values(Children(el))| <= 1)
  {
    PrintedValues(FromElement(el));
    FirstValueRead(Children(el));
    hide FieldElement, Children, Values;
  }

  /** A second value in a field is never read. */
  lemma LaterValuesLost(el: Element, later: Element)
    requires FindNamed(Children(el), "value").Some? && later.name == "value"
    ensures FromElement(AppendChild(el, later)) == FromElement(el)
  {
    AppendedChildRead(el, later);
  }

  /** A choice of two colours, of which the second is lost. */
  lemma SecondChoiceLost()
    ensures var el := Element("field", NS_DATA, map["type" := "list-multi"],
                              [Child(WithText("value", "red")), Child(WithText("value", "blue"))]);
      && Values(Children(el)) == ["red", "blue"]
      && Values(Children(FieldElement(FromElement(el)))) == ["red"]
  {
    hide Values, WithText, TextOf, FieldElement, FromElement, Children;
    var bare := Element("field", NS_DATA, map["type" := "list-multi"], []);
    var red, blue := WithText("value", "red"), WithText("value", "blue");
    var one := AppendChild(bare, red);
    var el := AppendChild(one, blue);
    assert el.nodes == [Child(red), Child(blue)];
    AppendedValues(bare, red);
    AppendedValues(one, blue);
    ValueElementName("red");
    ValueElementName("blue");
    TextRead("value", "red");
    TextRead("value", "blue");
    assert Values(Children(bare)) == [] by { EmptyHasNoValues(bare); }
    assert Values(Children(el)) == ["red", "blue"];
    ValuesKeptIff(el);
  }

  lemma EmptyHasNoValues(el: Element)
    requires el.nodes == []
    ensures Values(Children(el)) == []
  {}
}
