/** `tool_gui` without the widgets: how each parameter's default text is
    read, which parameters are required, and which kind of control each
    parameter gets, in the dict's order. */
module Form {
  import opened Results
  import opened PyStr
  import opened OrderedDicts
  import opened Params

  /** A default as `tool_gui` reads it: none, a boolean, or text. */
  datatype DefaultValue = NoDefault | BoolDefault(b: bool) | TextDefault(text: string)

  /** Lines 350-356: `null` or empty is no default; any `false` in the text
      wins over any `true`; anything else is the text with its quotes
      dropped. */
  function ParseDefault(raw: string): (r: DefaultValue)
    ensures r.NoDefault? <==> raw == "null" || raw == []
    ensures r.BoolDefault? <==> !r.NoDefault? && (Contains(raw, "false") || Contains(raw, "true"))
    ensures r.BoolDefault? ==> (r.b <==> !Contains(raw, "false"))
    ensures r.TextDefault? ==> '"' !in r.text && |r.text| <= |raw|
  {
    if raw == "null" || |raw| == 0 then NoDefault
    else if Contains(raw, "false") then BoolDefault(false)
    else if Contains(raw, "true") then BoolDefault(true)
    else
      RemoveAllChar(raw, '"');
      TextDefault(RemoveAll(raw, "\""))
  }

  /** A text default keeps every character of the raw text but the quotes,
      in order. */
  lemma ParseDefaultText(raw: string)
    requires ParseDefault(raw).TextDefault?
    ensures ParseDefault(raw).text == Without(raw, '"')
  {
    RemoveAllChar(raw, '"');
  }

  /** `str(default_value)` for a default that exists. */
  function DefaultText(d: DefaultValue): string
    requires !d.NoDefault?
  {
    match d
    case BoolDefault(b) => if b then "True" else "False"
    case TextDefault(t) => t
  }

  /** The text a default seeds a text box with, read from the raw default:
      `False` for any `false`, `True` for any `true`, and otherwise the raw
      text without its quotes. */
  lemma DefaultTextOfRaw(raw: string)
    requires raw != "null" && raw != []
    ensures DefaultText(ParseDefault(raw)) ==
      if Contains(raw, "false") then "False"
      else if Contains(raw, "true") then "True"
      else Without(raw, '"')
  {
    if !Contains(raw, "false") && !Contains(raw, "true") {
      ParseDefaultText(raw);
    }
  }

  /** A parameter is required exactly when its `optional` text is `false`. */
  predicate IsRequired(p: RawParam) {
    p.optional == "false"
  }

  /** The label a control shows: the parameter's name, starred when
      required. */
  function Label(p: RawParam): (r: string)
    ensures r == p.name + "*" <==> IsRequired(p)
    ensures !IsRequired(p) ==> r == p.name
  {
    p.name + (if IsRequired(p) then "*" else "")
  }

  /** The controls of the form, each holding the value it currently shows:
      a checkbox, a file chooser with its selection, a text box, a
      drop-down over fixed options. */
  datatype Control =
    | Checkbox(checked: bool)
    | Chooser(selected: Option<string>)
    | Text(value: string)
    | Dropdown(options: seq<string>)

  /** The scalar tags that get a file chooser. */
  const FileTags: seq<string> := ["Directory", "ExistingFile", "ExistingFileOrFloat", "FileList", "NewFile"]

  /** `list(param_type.keys())[0]` on an empty map raises `IndexError`. */
  datatype FormError = EmptyParamType(key: string)

  /** The control lines 360-404 build for one parameter, or none for a
      `parameter_type` that is neither text nor a map. */
  function ControlFor(key: string, t: ParamType, d: DefaultValue): (r: Result<Option<Control>, FormError>)
    ensures r.Err? <==> t == Compound(map[])
    ensures r == Ok(None) <==> t.OtherLiteral?
    ensures (r.Ok? && r.value.Some? && r.value.value.Checkbox?) <==> t == Scalar("Boolean")
    ensures (r.Ok? && r.value.Some? && r.value.value.Dropdown?)
      <==> t.Compound? && "OptionList" in t.entries
    ensures (r.Ok? && r.value.Some? && r.value.value.Chooser?)
      <==> ((t.Scalar? && t.tag in FileTags)
            || (t.Compound? && "OptionList" !in t.entries && t.entries != map[]))
    ensures (r.Ok? && r.value.Some? && r.value.value.Text?)
      <==> t.Scalar? && t.tag != "Boolean" && t.tag !in FileTags
    ensures r.Ok? && r.value.Some? ==> match r.value.value
      case Checkbox(b) => b <==> d == BoolDefault(true)
      case Chooser(sel) => sel.None?
      case Text(v) => v == if d.NoDefault? then "" else DefaultText(d)
      case Dropdown(opts) => opts == t.entries["OptionList"]
  {
    match t
    case Scalar(tag) =>
      if tag == "Boolean" then Ok(Some(Checkbox(d == BoolDefault(true))))
      else if tag in FileTags then Ok(Some(Chooser(None)))
      else Ok(Some(Text(if d.NoDefault? then "" else DefaultText(d))))
    case Compound(m) =>
      if "OptionList" in m then Ok(Some(Dropdown(m["OptionList"])))
      else if m == map[] then Err(EmptyParamType(key))
      else Ok(Some(Chooser(None)))
    case OtherLiteral => Ok(None)
  }

  /** One control of the form, under the parameter's key. */
  datatype Field = Field(key: string, caption: string, control: Control)

  /** The form: the fields in the order of the parameter dict, and the
      required keys in the same order. */
  datatype Form = Form(fields: seq<Field>, required: seq<string>)

  predicate Distinct(xs: seq<string>) {
    forall i, j :: 0 <= i < j < |xs| ==> xs[i] != xs[j]
  }

  /** No two fields share a key. */
  predicate DistinctKeys(fields: seq<Field>) {
    forall i, j :: 0 <= i < j < |fields| ==> fields[i].key != fields[j].key
  }

  /** What every form `tool_gui` builds satisfies: no key twice among the
      fields, none twice among the required keys. */
  predicate WellFormed(form: Form) {
    DistinctKeys(form.fields) && Distinct(form.required)
  }

  /** The loop of lines 341-404 over `keys`, a run of the dict's keys. A
      raising parameter ends the loop with its error. */
  function BuildFields(keys: seq<string>, params: Dict<RawParam>): (r: Result<Form, FormError>)
    requires forall i :: 0 <= i < |keys| ==> keys[i] in params.values
    requires Distinct(keys)
    ensures r.Ok? ==> WellFormed(r.value)
    ensures r.Ok? ==> forall i :: 0 <= i < |r.value.fields| ==> r.value.fields[i].key in keys
    ensures r.Ok? ==> forall k :: k in r.value.required <==> k in keys && IsRequired(params.values[k])
  {
    if keys == [] then Ok(Form([], []))
    else
      var k := keys[0];
      var p := params.values[k];
      var c :- ControlFor(k, p.paramType, ParseDefault(p.defaultValue));
      assert Distinct(keys[1..]);
      var rest :- BuildFields(keys[1..], params);
      var form := Form((if c.Some? then [Field(k, Label(p), c.value)] else []) + rest.fields,
                       (if IsRequired(p) then [k] else []) + rest.required);
      ConsKey(keys, params, c, rest, form);
      Ok(form)
  }

  /** Putting the first key's field and required mark in front of the
      form built from the other keys. */
  lemma ConsKey(keys: seq<string>, params: Dict<RawParam>, c: Option<Control>, rest: Form, form: Form)
    requires keys != [] && Distinct(keys)
    requires forall i :: 0 <= i < |keys| ==> keys[i] in params.values
    requires WellFormed(rest)
    requires forall i :: 0 <= i < |rest.fields| ==> rest.fields[i].key in keys[1..]
    requires forall k :: k in rest.required <==> k in keys[1..] && IsRequired(params.values[k])
    requires var p := params.values[keys[0]];
      form == Form((if c.Some? then [Field(keys[0], Label(p), c.value)] else []) + rest.fields,
                   (if IsRequired(p) then [keys[0]] else []) + rest.required)
    ensures WellFormed(form)
    ensures forall i :: 0 <= i < |form.fields| ==> form.fields[i].key in keys
    ensures forall k :: k in form.required <==> k in keys && IsRequired(params.values[k])
  {
    assert keys[0] !in keys[1..];
    assert forall k :: k in keys <==> k == keys[0] || k in keys[1..];
  }

  /** `tool_gui` on a tool's parameter dict. */
  function ToolGui(params: Dict<RawParam>): (r: Result<Form, FormError>)
    requires Valid(params)
    ensures r.Ok? ==> WellFormed(r.value)
    ensures r.Ok? ==> forall k :: k in r.value.required <==> k in params.values && IsRequired(params.values[k])
  {
    BuildFields(params.keys, params)
  }

  /** The form is built exactly when no parameter has an empty map as its
      type; the field list follows the dict's order, one field per
      parameter whose type is text or a map, labelled and equipped as
      `ControlFor` says. */
  lemma {:induction false} BuildFieldsShape(keys: seq<string>, params: Dict<RawParam>)
    requires forall i :: 0 <= i < |keys| ==> keys[i] in params.values
    requires Distinct(keys)
    ensures BuildFields(keys, params).Err?
      <==> exists i :: 0 <= i < |keys| && params.values[keys[i]].paramType == Compound(map[])
    ensures BuildFields(keys, params).Ok? ==>
      BuildFields(keys, params).value.fields == ExpectedFields(keys, params)
  {
    if keys != [] {
      assert Distinct(keys[1..]);
      BuildFieldsShape(keys[1..], params);
      if params.values[keys[0]].paramType != Compound(map[]) {
        if exists i :: 0 <= i < |keys| && params.values[keys[i]].paramType == Compound(map[]) {
          var i :| 0 <= i < |keys| && params.values[keys[i]].paramType == Compound(map[]);
          assert keys[1..][i - 1] == keys[i];
        }
      }
    }
  }

  /** The reference field list: one field per key whose type makes a
      control, in the keys' order, leaving the error handling aside. */
  function ExpectedFields(keys: seq<string>, params: Dict<RawParam>): seq<Field>
    requires forall i :: 0 <= i < |keys| ==> keys[i] in params.values
  {
    if keys == [] then []
    else
      var p := params.values[keys[0]];
      var c := ControlFor(keys[0], p.paramType, ParseDefault(p.defaultValue));
      (if c.Ok? && c.value.Some? then [Field(keys[0], Label(p), c.value.value)] else [])
      + ExpectedFields(keys[1..], params)
  }

  /** The required list keeps the dict's order: it is the dict's keys with
      the optional ones dropped. */
  lemma {:induction false} RequiredInOrder(keys: seq<string>, params: Dict<RawParam>)
    requires forall i :: 0 <= i < |keys| ==> keys[i] in params.values
    requires Distinct(keys)
    requires BuildFields(keys, params).Ok?
    ensures BuildFields(keys, params).value.required == RequiredKeys(keys, params)
  {
    if keys != [] {
      assert Distinct(keys[1..]);
      RequiredInOrder(keys[1..], params);
    }
  }

  function RequiredKeys(keys: seq<string>, params: Dict<RawParam>): seq<string>
    requires forall i :: 0 <= i < |keys| ==> keys[i] in params.values
  {
    if keys == [] then []
    else (if params.values[keys[0]].optional == "false" then [keys[0]] else []) + RequiredKeys(keys[1..], params)
  }
}
