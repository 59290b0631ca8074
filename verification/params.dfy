/** The field names of a parameter item and the characters that tell them
    apart. */
module ItemKeys {
  /** The text that opens a field's member: `"key":`. */
  function Field(key: string): string {
    "\"" + key + "\":"
  }

  /** The names of an item's six fields, in the order they are printed. */
  function FieldName(k: nat): string
    requires k < 6
  {
    if k == 0 then "name"
    else if k == 1 then "flags"
    else if k == 2 then "description"
    else if k == 3 then "parameter_type"
    else if k == 4 then "default_value"
    else "optional"
  }

  /** A character of the later field name `k` that member `j`'s prefix lacks. */
  function Witness(j: nat, k: nat): char
    requires j < k < 6
  {
    if j == 2 then (if k == 5 then 'a' else '_') else FieldName(k)[0]
  }

  lemma {:induction false} WitnessSet(j: nat, k: nat)
    requires j < k < 6
    ensures Witness(j, k) in FieldName(k) && Witness(j, k) !in Field(FieldName(j))
    ensures ':' !in FieldName(k) && '"' !in FieldName(k)
  {
    if j == 0 { WitnessAfterName(k); }
    else if j == 1 { WitnessAfterFlags(k); }
    else if j == 2 { WitnessAfterDescription(k); }
    else if j == 3 { WitnessAfterType(k); }
    else { WitnessAfterDefault(k); }
    FieldLacks(FieldName(j), Witness(j, k));
    FieldNameChars(k);
  }

  lemma {:induction false} FieldLacks(key: string, c: char)
    requires c !in key && c != '"' && c != ':'
    ensures c !in Field(key)
  {}

  lemma {:induction false} WitnessAfterName(k: nat)
    requires 0 < k < 6
    ensures Witness(0, k) in FieldName(k) && Witness(0, k) !in FieldName(0)
    ensures Witness(0, k) != '"' && Witness(0, k) != ':'
  {}

  lemma {:induction false} WitnessAfterFlags(k: nat)
    requires 1 < k < 6
    ensures Witness(1, k) in FieldName(k) && Witness(1, k) !in FieldName(1)
    ensures Witness(1, k) != '"' && Witness(1, k) != ':'
  {}

  lemma {:induction false} WitnessAfterDescription(k: nat)
    requires 2 < k < 6
    ensures Witness(2, k) in FieldName(k) && Witness(2, k) !in FieldName(2)
    ensures Witness(2, k) != '"' && Witness(2, k) != ':'
  {}

  lemma {:induction false} WitnessAfterType(k: nat)
    requires 3 < k < 6
    ensures Witness(3, k) in FieldName(k) && Witness(3, k) !in FieldName(3)
    ensures Witness(3, k) != '"' && Witness(3, k) != ':'
  {}

  lemma {:induction false} WitnessAfterDefault(k: nat)
    requires 4 < k < 6
    ensures Witness(4, k) in FieldName(k) && Witness(4, k) !in FieldName(4)
    ensures Witness(4, k) != '"' && Witness(4, k) != ':'
  {}

  /** A field name is a plain word: not empty, and without the quote, colon,
      comma or space that the printed item puts around it. */
  predicate Bare(w: string) {
    w != [] && '"' !in w && ':' !in w && ',' !in w && ' ' !in w
  }

  lemma {:induction false} FieldNameChars(k: nat)
    requires k < 6
    ensures Bare(FieldName(k))
  {
    if k == 0 { assert Bare("name"); }
    else if k == 1 { assert Bare("flags"); }
    else if k == 2 { assert Bare("description"); }
    else if k == 3 { assert Bare("parameter_type"); }
    else if k == 4 { assert Bare("default_value"); }
    else { assert Bare("optional"); }
  }
}

/** `get_tool_params`: the parameter list a tool prints as JSON-like text is
    cut into one item per parameter, each item is sliced into its fields, and
    the parameters are collected in a dict keyed by a short flag name derived
    from each parameter's flags. */
module Params {
  import opened ItemKeys
  import opened Results
  import opened PyStr
  import opened OrderedDicts

  /** A `parameter_type` after literal evaluation: a bare tag such as
      `"Boolean"`, a map such as `{"OptionList": [...]}`, or a literal of
      any other shape. Only a map's keys and its `OptionList` entry are ever
      looked at. */
  datatype ParamType =
    | Scalar(tag: string)
    | Compound(entries: map<string, seq<string>>)
    | OtherLiteral

  /** One parameter's fields, as the dict of line 138 holds them. `flags` is
      the collapsed flag, the same text the parameter is keyed by. */
  datatype RawParam = RawParam(
    name: string,
    flags: string,
    description: string,
    paramType: ParamType,
    defaultValue: string,
    optional: string)

  /** The ways `get_tool_params` raises: `str.index` finding no `[`, the last
      flag rule indexing past a split without `-`, and a `parameter_type`
      that does not evaluate as a literal. */
  datatype ParseError = NoOpenBracket | NoFlagDash(flags: string) | BadLiteral(text: string)

  const QuotedI: string := "\"-i\""

  /** `s[:-2]`. */
  function DropLastTwo(s: string): (r: string)
    ensures |s| >= 2 ==> r == s[..|s| - 2]
    ensures |s| < 2 ==> r == []
  {
    Slice(s, 0, -2)
  }

  // ---------------------------------------------------------------------------
  // Flag collapsing

  /** One of the three `-i` rules applies. */
  predicate InputRule(flags: string) {
    Contains(flags, QuotedI) && Contains(flags, "--input")
  }

  /** The key a parameter is stored under, from the text of its flags list
      and the tool's name. The rules are tried in order. */
  function CollapseFlags(flags: string, toolName: string): (r: Result<string, ParseError>)
    ensures r.Err? ==> r.error == NoFlagDash(flags)
  {
    if Contains(flags, QuotedI) && Contains(flags, "--inputs") then Ok("inputs")
    else if Contains(flags, QuotedI) && Contains(flags, "--input") && Contains(flags, "--dem")
         && Lower(toolName) != "sink" then Ok("dem")
    else if Contains(flags, QuotedI) && Contains(flags, "--input") then Ok("i")
    else FallbackKey(flags)
  }

  /** The rules after the `-i` ones, which look only at the `--` and `-`
      separators: text after the only `--`, after the second of two, or
      between the first two `-`. */
  function FallbackKey(flags: string): (r: Result<string, ParseError>)
    ensures r.Err? ==> r.error == NoFlagDash(flags)
  {
    SplitCount(flags, "--");
    var n := Count(flags, "--");
    if n == 1 then Ok(DropLastTwo(Split(flags, "--")[1]))
    else if n == 2 then Ok(DropLastTwo(Split(flags, "--")[2]))
    else
      SplitCount(flags, "-");
      var parts := Split(flags, "-");
      if |parts| >= 2 then Ok(DropLastTwo(parts[1])) else Err(NoFlagDash(flags))
  }

  /** When no `-i` rule applies the fallback rules decide. */
  lemma CollapseFallback(flags: string, toolName: string)
    requires !InputRule(flags)
    ensures CollapseFlags(flags, toolName) == FallbackKey(flags)
  {
    if Contains(flags, QuotedI) && Contains(flags, "--inputs") {
      InputsHasInput(flags);
    }
  }

  /** Flags naming both `"-i"` and `--inputs` collapse to `inputs` whatever
      the tool. */
  lemma CollapseInputs(flags: string, toolName: string)
    requires Contains(flags, QuotedI) && Contains(flags, "--inputs")
    ensures CollapseFlags(flags, toolName) == Ok("inputs")
  {
  }

  /** `"-i"`, `--input` and `--dem` without `--inputs` give `dem`, except for
      the `sink` tool in any letter case, which gets `i`. */
  lemma CollapseDem(flags: string, toolName: string)
    requires Contains(flags, QuotedI) && Contains(flags, "--input") && Contains(flags, "--dem")
    requires !Contains(flags, "--inputs")
    ensures CollapseFlags(flags, toolName) == Ok(if Lower(toolName) == "sink" then "i" else "dem")
  {
  }

  /** The three `-i` rules are exactly the cases collapsing to `inputs`,
      `dem` or `i` without looking at the text after a `--`. */
  lemma CollapseInputRule(flags: string, toolName: string)
    requires InputRule(flags)
    ensures CollapseFlags(flags, toolName) in {Ok("inputs"), Ok("dem"), Ok("i")}
  {
  }

  /** The tool name matters only as far as being `sink` or not. */
  lemma CollapseToolName(flags: string, t1: string, t2: string)
    requires (Lower(t1) == "sink") == (Lower(t2) == "sink")
    ensures CollapseFlags(flags, t1) == CollapseFlags(flags, t2)
  {
  }

  /** With a single `--`, the key is what follows it, less two characters;
      that text holds no further `--`. */
  lemma FallbackOneDoubleDash(flags: string)
    requires Count(flags, "--") == 1
    ensures var k := Find(flags, "--");
      0 <= k && k + 2 <= |flags| && !Contains(flags[k + 2..], "--")
      && FallbackKey(flags) == Ok(DropLastTwo(flags[k + 2..]))
  {
    SplitOnce(flags, "--");
    SplitCount(flags, "--");
    assert FallbackKey(flags) == Ok(DropLastTwo(Split(flags, "--")[1]));
  }

  /** With exactly two `--`, the key is what follows the second, less two
      characters. */
  lemma FallbackTwoDoubleDashes(flags: string)
    requires Count(flags, "--") == 2
    ensures var k1 := Find(flags, "--");
      0 <= k1 && k1 + 2 <= |flags|
      && (var rest := flags[k1 + 2..];
          var k2 := Find(rest, "--");
          0 <= k2 && k2 + 2 <= |rest| && !Contains(rest[k2 + 2..], "--")
          && FallbackKey(flags) == Ok(DropLastTwo(rest[k2 + 2..])))
  {
    SplitTwice(flags, "--");
    var k1 := Find(flags, "--");
    var rest := flags[k1 + 2..];
    SplitOnce(rest, "--");
    assert Split(flags, "--")[2] == Split(rest, "--")[1];
  }

  /** Otherwise the key is the text between the first and the second `-`
      (or to the end when there is no second), less two characters. */
  lemma FallbackSingleDash(flags: string)
    requires Count(flags, "--") != 1 && Count(flags, "--") != 2
    requires '-' in flags
    ensures var k := Find(flags, "-");
      0 <= k < |flags|
      && (var rest := flags[k + 1..];
          var j := Find(rest, "-");
          var piece := if j >= 0 then rest[..j] else rest;
          '-' !in piece && FallbackKey(flags) == Ok(DropLastTwo(piece)))
  {
    var k := Find(flags, "-");
    FindChar(flags, '-');
    var rest := flags[k + 1..];
    FindChar(rest, '-');
    SplitFirst(flags, "-");
    SplitFirst(rest, "-");
    assert Split(flags, "-")[1] == Split(rest, "-")[0];
  }

  /** Collapsing raises exactly when the flags text holds no `-` at all. */
  lemma CollapseFailsIffNoDash(flags: string, toolName: string)
    ensures CollapseFlags(flags, toolName).Err? <==> '-' !in flags
  {
    ContainsChar(flags, '-');
    SplitCount(flags, "-");
    FindFirst(flags, "-");
    FindFirst(flags, "--");
    if '-' !in flags {
      if Contains(flags, QuotedI) {
        ContainsCharOfSub(flags, QuotedI, '-');
      }
      if Contains(flags, "--") {
        ContainsCharOfSub(flags, "--", '-');
      }
    }
  }

  lemma InputsHasInput(flags: string)
    requires Contains(flags, "--inputs")
    ensures Contains(flags, "--input")
  {
    var i :| 0 <= i <= |flags| && OccursAt(flags, "--inputs", i);
    assert flags[i..i + 7] == flags[i..i + 8][..7];
    assert OccursAt(flags, "--input", i);
  }

  // ---------------------------------------------------------------------------
  // Cutting the output into items

  const NameOpen: string := "{\"name\""
  const NameKey: string := "\"name\""

  /** The text between the first `[` and two characters before the end of
      the stripped output; the end bound is applied to the unstripped text. */
  function ParamsText(out: string): (r: Result<string, ParseError>)
    ensures r.Err? <==> '[' !in out
    ensures r.Ok? ==> var k := Find(out, "[");
      0 <= k < |out| && out[k] == '[' && '[' !in out[..k]
      && r.value == Slice(out, k + 1, |Strip(out)| - 2)
  {
    FindChar(out, '[');
    var k := Find(out, "[");
    if k < 0 then Err(NoOpenBracket) else Ok(Slice(out, k + 1, |Strip(out)| - 2))
  }

  predicate Blank(piece: string) {
    Strip(piece) == []
  }

  /** One piece of the `{"name"` split as an item: the key put back in
      front, then cut at its last `}` and stripped. */
  function ItemOf(piece: string): (r: string)
    requires !Blank(piece)
  {
    var item := NameKey + Strip(piece);
    Strip(Slice(item, 0, RFind(item, "}")))
  }

  /** The items of lines 77-84: one per piece that is not blank once
      stripped, in order. */
  function Items(pieces: seq<string>): (r: seq<string>)
  {
    if pieces == [] then []
    else if Blank(pieces[0]) then Items(pieces[1..])
    else [ItemOf(pieces[0])] + Items(pieces[1..])
  }

  /** The pieces that are not blank once stripped, in order. */
  function NonBlank(pieces: seq<string>): (r: seq<string>)
    ensures forall i :: 0 <= i < |r| ==> !Blank(r[i])
  {
    if pieces == [] then []
    else if Blank(pieces[0]) then NonBlank(pieces[1..])
    else [pieces[0]] + NonBlank(pieces[1..])
  }

  /** `NonBlank` keeps exactly the pieces that are not blank. */
  lemma {:induction false} NonBlankMembers(pieces: seq<string>)
    ensures forall p :: p in NonBlank(pieces) <==> p in pieces && !Blank(p)
  {
    if pieces != [] {
      NonBlankMembers(pieces[1..]);
      assert forall p :: p in pieces <==> p == pieces[0] || p in pieces[1..];
    }
  }

  /** The items are `ItemOf` applied to the non-blank pieces, one for one. */
  lemma {:induction false} ItemsOfNonBlank(pieces: seq<string>)
    ensures |Items(pieces)| == |NonBlank(pieces)|
    ensures forall i :: 0 <= i < |Items(pieces)| ==> Items(pieces)[i] == ItemOf(NonBlank(pieces)[i])
  {
    if pieces != [] {
      var rest := pieces[1..];
      ItemsOfNonBlank(rest);
      if !Blank(pieces[0]) {
        var xs, ns := Items(pieces), NonBlank(pieces);
        assert xs == [ItemOf(pieces[0])] + Items(rest);
        assert ns == [pieces[0]] + NonBlank(rest);
        forall i | 0 < i < |xs| ensures xs[i] == ItemOf(ns[i]) {
          assert xs[i] == Items(rest)[i - 1] && ns[i] == NonBlank(rest)[i - 1];
        }
      }
    }
  }

  function NonBlankCount(pieces: seq<string>): nat {
    if pieces == [] then 0 else (if Blank(pieces[0]) then 0 else 1) + NonBlankCount(pieces[1..])
  }

  /** Blank pieces make no item, every other piece makes one. */
  lemma {:induction false} ItemsCount(pieces: seq<string>)
    ensures |Items(pieces)| == NonBlankCount(pieces)
  {
    if pieces != [] {
      ItemsCount(pieces[1..]);
    }
  }

  /** Every item starts with the `"name"` the split took away. */
  lemma ItemStartsWithName(piece: string)
    requires !Blank(piece)
    ensures |ItemOf(piece)| >= |NameKey| && ItemOf(piece)[..|NameKey|] == NameKey
  {
    var item := NameKey + Strip(piece);
    assert item[..|NameKey|] == NameKey;
    var cut := CutAtLastBrace(item);
    StripKeepsPrefix(cut, |NameKey|);
  }

  /** Cutting text that starts with the key at its last `}` keeps the key. */
  lemma CutAtLastBrace(item: string) returns (cut: string)
    requires |item| > |NameKey| && item[..|NameKey|] == NameKey
    ensures cut == Slice(item, 0, RFind(item, "}"))
    ensures |cut| >= |NameKey| && cut[..|NameKey|] == NameKey
  {
    var k := RFind(item, "}");
    cut := Slice(item, 0, k);
    if k >= 0 {
      assert item[k] == '}' by { assert item[k..k + 1] == "}"; }
      forall j | 0 <= j < |NameKey|
        ensures item[j] != '}'
      {
        assert item[j] == item[..|NameKey|][j];
      }
      assert cut == item[..k];
    } else {
      assert cut == item[..|item| - 1];
    }
  }

  /** Stripping text that starts and ends its first `n` characters with
      non-space keeps those `n` characters. */
  lemma StripKeepsPrefix(s: string, n: nat)
    requires 0 < n <= |s| && !IsSpace(s[0]) && !IsSpace(s[n - 1])
    ensures |Strip(s)| >= n && Strip(s)[..n] == s[..n]
  {
    assert LeadingSpace(s) == 0;
    var t := TrailingSpace(s);
    assert t <= |s| - n;
  }

  // ---------------------------------------------------------------------------
  // Slicing an item into its fields

  /** The six field texts of one item, each the slice from one character
      before its field name to two characters before the next field name,
      with the `"field":` prefix removed; `name` and `description` also lose
      every `"`. */
  datatype ItemFields = ItemFields(
    name: string,
    flags: string,
    description: string,
    typeText: string,
    defaultValue: string,
    optional: string)

  const OptionalNote: string := " (optional)"

  /** Lines 88-136 without the flag rules and the literal evaluation: every
      ` (optional)` is removed, then the fields are sliced. */
  function SliceFields(raw: string): (r: ItemFields)
    ensures '"' !in r.name && '"' !in r.description
  {
    FieldsOf(RemoveAll(raw, OptionalNote))
  }

  /** The fields of an item with the notes removed. The positions are those
      of the first occurrence of each field name; a missing name gives -1,
      and the slice bounds then count from the end as Python's do. */
  function FieldsOf(item: string): (r: ItemFields)
    ensures '"' !in r.name && '"' !in r.description
  {
    FieldsAt(item, "name", "flags", "description", "parameter_type", "default_value", "optional")
  }

  /** The slicing behind `FieldsOf`, by the six field names `k0` to `k5` in
      the order they are printed. */
  function FieldsAt(item: string, k0: string, k1: string, k2: string, k3: string, k4: string, k5: string): (r: ItemFields)
    ensures '"' !in r.name && '"' !in r.description
  {
    var i0 := Find(item, k0);
    var i1 := Find(item, k1);
    var i2 := Find(item, k2);
    var i3 := Find(item, k3);
    var i4 := Find(item, k4);
    var i5 := Find(item, k5);
    ItemFields(
      Unquoted(FieldText(item, i0 - 1, i1 - 2, k0)),
      FieldText(item, i1 - 1, i2 - 2, k1),
      Unquoted(FieldText(item, i2 - 1, i3 - 2, k2)),
      FieldText(item, i3 - 1, i4 - 2, k3),
      FieldText(item, i4 - 1, i5 - 2, k4),
      FieldText(item, i5 - 1, |item|, k5))
  }

  /** `item[start:stop].replace('"key":', "")`. */
  function FieldText(item: string, start: int, stop: int, key: string): string {
    RemoveAll(Slice(item, start, stop), Field(key))
  }

  /** `s.replace('"', "")`. */
  function Unquoted(s: string): (r: string)
    ensures r == Without(s, '"')
    ensures '"' !in r
  {
    RemoveAllChar(s, '"');
    RemoveAll(s, "\"")
  }

  // ---------------------------------------------------------------------------
  // Slicing a printed parameter gives back its fields

  function Quoted(x: string): string {
    "\"" + x + "\""
  }

  /** `x`, followed by the ` (optional)` note when `noted` holds. */
  function Noted(x: string, noted: bool): string {
    if noted then x + OptionalNote else x
  }

  /** The six `"key":value` members of one parameter as the toolkit prints
      it, in order; the name and the description are quoted strings. */
  function Members(n: string, f: string, d: string, t: string, v: string, o: string): seq<string> {
    [MemberOf(0, n), MemberOf(1, f), MemberOf(2, d), MemberOf(3, t), MemberOf(4, v), MemberOf(5, o)]
  }

  /** Member `k` printed from value `x`: the name and the description are
      quoted. */
  function MemberOf(k: nat, x: string): string
    requires k < 6
  {
    Field(FieldName(k)) + if k == 0 || k == 2 then Quoted(x) else x
  }

  /** One parameter as an item holds it: its members joined by commas. */
  function Rendered(n: string, f: string, d: string, t: string, v: string, o: string): string {
    Join(Members(n, f, d, t, v, o), ",")
  }

  /** The values an item can be printed from and sliced back into: the name
      and the description hold no `"`, and no value holds the note, its own
      `"key":` prefix, or the name of a field after its own. */
  predicate Sliceable(n: string, f: string, d: string, t: string, v: string, o: string) {
    var vs := [n, f, d, t, v, o];
    && '"' !in n && '"' !in d
    && (forall j :: 0 <= j < 6 ==> !Contains(vs[j], OptionalNote))
    && (forall j :: 1 <= j < 6 ==> !Contains(vs[j], Field(FieldName(j))))
    && (forall j, k :: 0 <= j < k < 6 ==> !Contains(vs[j], FieldName(k)))
  }

  /** Slicing an item printed from six field values gives those values
      back, with the ` (optional)` note gone from the name and the
      description, provided the name and the description hold no `"` and no
      value holds the name of a field after its own, its own `"key":`
      prefix, or the note. */
  lemma {:induction false} SliceFieldsOfRendered(n: string, nameNoted: bool, f: string, d: string, descNoted: bool,
                              t: string, v: string, o: string)
    requires Sliceable(n, f, d, t, v, o)
    ensures SliceFields(Rendered(Noted(n, nameNoted), f, Noted(d, descNoted), t, v, o))
         == ItemFields(n, f, d, t, v, o)
  {
    assert !Contains(n, OptionalNote) && !Contains(f, OptionalNote) && !Contains(d, OptionalNote)
      && !Contains(t, OptionalNote) && !Contains(v, OptionalNote) && !Contains(o, OptionalNote) by {
      var vs := [n, f, d, t, v, o];
      assert vs[0] == n && vs[1] == f && vs[2] == d && vs[3] == t && vs[4] == v && vs[5] == o;
    }
    NotesRemoved(n, nameNoted, f, d, descNoted, t, v, o);
    FieldsOfRendered(n, f, d, t, v, o);
  }

  /** Removing every note from a printed item leaves the item printed from
      the bare values. */
  lemma {:induction false} NotesRemoved(n: string, nameNoted: bool, f: string, d: string, descNoted: bool,
                     t: string, v: string, o: string)
    requires !Contains(n, OptionalNote) && !Contains(f, OptionalNote) && !Contains(d, OptionalNote)
    requires !Contains(t, OptionalNote) && !Contains(v, OptionalNote) && !Contains(o, OptionalNote)
    ensures RemoveAll(Rendered(Noted(n, nameNoted), f, Noted(d, descNoted), t, v, o), OptionalNote)
         == Rendered(n, f, d, t, v, o)
  {
    var ms := Members(Noted(n, nameNoted), f, Noted(d, descNoted), t, v, o);
    var ns := Members(n, f, d, t, v, o);
    var vs := [n, f, d, t, v, o];
    var marks := [nameNoted, false, descNoted, false, false, false];
    forall i | 0 <= i < 6
      ensures RemoveAll(ms[i], OptionalNote) == ns[i]
    {
      assert ms[i] == MemberOf(i, Noted(vs[i], marks[i])) && ns[i] == MemberOf(i, vs[i]);
      MemberNoteRemoved(i, vs[i], marks[i]);
    }
    RemoveAllJoin(ms, ns, ',', OptionalNote);
  }

  /** Removing the note from member `k` leaves the member printed from the
      bare value; only the name and the description carry a note. */
  lemma {:induction false} MemberNoteRemoved(k: nat, x: string, noted: bool)
    requires k < 6 && !Contains(x, OptionalNote) && (noted ==> k == 0 || k == 2)
    ensures RemoveAll(MemberOf(k, Noted(x, noted)), OptionalNote) == MemberOf(k, x)
  {
    FieldNameChars(k);
    if k == 0 || k == 2 {
      QuotedNoteRemoved(FieldName(k), x, noted);
    } else {
      MemberNoteFree(FieldName(k), x);
    }
  }

  lemma {:induction false} MemberNoteFree(key: string, x: string)
    requires ' ' !in key && !Contains(x, OptionalNote)
    ensures RemoveAll(Field(key) + x, OptionalNote) == Field(key) + x
  {
    NotContainsChar(Field(key), OptionalNote, ' ');
    ContainsAppend(Field(key), x, OptionalNote);
    RemoveAllAbsent(Field(key) + x, OptionalNote);
  }

  lemma {:induction false} QuotedNoteRemoved(key: string, x: string, noted: bool)
    requires ' ' !in key && !Contains(x, OptionalNote)
    ensures RemoveAll(Field(key) + Quoted(Noted(x, noted)), OptionalNote) == Field(key) + Quoted(x)
  {
    var p := Field(key) + "\"";
    NotContainsChar(p, OptionalNote, ' ');
    RemoveAllAbsent(p, OptionalNote);
    NotContainsChar("\"", OptionalNote, ' ');
    RemoveAllAbsent("\"", OptionalNote);
    NoteRemoved(x, noted);
    RemoveAllAround(p, Noted(x, noted), "\"", OptionalNote);
    QuotedMember(key, Noted(x, noted));
    QuotedMember(key, x);
  }

  lemma {:induction false} QuotedMember(key: string, y: string)
    ensures Field(key) + Quoted(y) == Field(key) + "\"" + y + "\""
  {
  }

  lemma {:induction false} NoteRemoved(x: string, noted: bool)
    requires !Contains(x, OptionalNote)
    ensures RemoveAll(Noted(x, noted), OptionalNote) == x
  {
    RemoveAllAbsent(x, OptionalNote);
    if noted {
      RemoveAllLead(OptionalNote, []);
      RemoveAllAbsent([], OptionalNote);
      assert OptionalNote + [] == OptionalNote;
      RemoveAllAppend(x, OptionalNote, OptionalNote);
    }
  }

  /** Removal inside text whose ends hold no occurrence and meet the middle
      at characters no occurrence can straddle. */
  lemma {:induction false} RemoveAllAround(p: string, y: string, q: string, sub: string)
    requires sub != [] && RemoveAll(p, sub) == p && RemoveAll(q, sub) == q
    requires NoStraddle(p, y, sub) && NoStraddle(p + y, q, sub)
    ensures RemoveAll(p + y + q, sub) == p + RemoveAll(y, sub) + q
  {
    RemoveAllAppend(p, y, sub);
    RemoveAllAppend(p + y, q, sub);
  }

  /** Slicing an item without notes gives back the values it was printed
      from. */
  lemma {:induction false} FieldsOfRendered(n: string, f: string, d: string, t: string, v: string, o: string)
    requires Sliceable(n, f, d, t, v, o)
    ensures FieldsOf(Rendered(n, f, d, t, v, o)) == ItemFields(n, f, d, t, v, o)
  {
    MembersOk(n, f, d, t, v, o);
    FieldsOfJoin(Members(n, f, d, t, v, o), "name", "flags", "description", "parameter_type", "default_value", "optional");
    MembersValues(n, f, d, t, v, o);
  }

  /** Each member of a printed item opens with its own `"key":` and no member
      before it holds its field name. */
  lemma {:induction false} MembersOk(n: string, f: string, d: string, t: string, v: string, o: string)
    requires Sliceable(n, f, d, t, v, o)
    ensures var ms := Members(n, f, d, t, v, o);
      && MemberOk(ms, 0, "name") && MemberOk(ms, 1, "flags") && MemberOk(ms, 2, "description")
      && MemberOk(ms, 3, "parameter_type") && MemberOk(ms, 4, "default_value")
      && MemberOk(ms, 5, "optional")
  {
    MemberOkAt(n, f, d, t, v, o, 0);
    MemberOkAt(n, f, d, t, v, o, 1);
    MemberOkAt(n, f, d, t, v, o, 2);
    MemberOkAt(n, f, d, t, v, o, 3);
    MemberOkAt(n, f, d, t, v, o, 4);
    MemberOkAt(n, f, d, t, v, o, 5);
  }

  lemma {:induction false} MemberOkAt(n: string, f: string, d: string, t: string, v: string, o: string, k: nat)
    requires Sliceable(n, f, d, t, v, o) && k < 6
    ensures MemberOk(Members(n, f, d, t, v, o), k, FieldName(k))
  {
    var ms := Members(n, f, d, t, v, o);
    var vs := [n, f, d, t, v, o];
    assert ms[k] == MemberOf(k, vs[k]);
    assert Field(FieldName(k)) <= ms[k];
    if k > 0 {
      MembersClear(n, f, d, t, v, o, k);
    }
    FieldNameChars(k);
  }

  /** Removing each member's `"key":` prefix, and the quotes around the name
      and the description, gives back the printed values. */
  lemma {:induction false} MembersValues(n: string, f: string, d: string, t: string, v: string, o: string)
    requires Sliceable(n, f, d, t, v, o)
    ensures var ms := Members(n, f, d, t, v, o);
      ItemFields(
        Unquoted(RemoveAll(ms[0], Field("name"))), RemoveAll(ms[1], Field("flags")),
        Unquoted(RemoveAll(ms[2], Field("description"))), RemoveAll(ms[3], Field("parameter_type")),
        RemoveAll(ms[4], Field("default_value")), RemoveAll(ms[5], Field("optional")))
      == ItemFields(n, f, d, t, v, o)
  {
    QuotedValue("name", n);
    QuotedValue("description", d);
    assert !Contains(f, Field("flags")) && !Contains(t, Field("parameter_type"))
      && !Contains(v, Field("default_value")) && !Contains(o, Field("optional")) by {
      var vs := [n, f, d, t, v, o];
      assert vs[1] == f && vs[3] == t && vs[4] == v && vs[5] == o;
      assert FieldName(1) == "flags" && FieldName(3) == "parameter_type";
      assert FieldName(4) == "default_value" && FieldName(5) == "optional";
    }
    MemberValue("flags", f);
    MemberValue("parameter_type", t);
    MemberValue("default_value", v);
    MemberValue("optional", o);
  }

  /** A field name a printed item can be sliced at: not empty, and free of
      the quote and the comma. */
  predicate Plain(key: string) {
    key != [] && '"' !in key && ',' !in key
  }

  /** Member `k` opens with `"key":`, no member before it holds `key`, and
      `key` is plain. */
  predicate MemberOk(ms: seq<string>, k: nat, key: string)
    requires k < |ms|
  {
    Field(key) <= ms[k] && ClearBefore(ms, k, key) && Plain(key)
  }

  /** No member before member `k` holds `key`. */
  predicate ClearBefore(ms: seq<string>, k: nat, key: string)
    requires k <= |ms|
  {
    forall j :: 0 <= j < k ==> !Contains(ms[j], key)
  }

  /** Slicing a comma join of six members, each opening with its own
      `"key":` and none holding a later field's name, cuts out exactly the
      members. */
  lemma {:induction false} FieldsOfJoin(ms: seq<string>, k0: string, k1: string, k2: string, k3: string, k4: string, k5: string)
    requires |ms| == 6
    requires MemberOk(ms, 0, k0) && MemberOk(ms, 1, k1) && MemberOk(ms, 2, k2)
    requires MemberOk(ms, 3, k3) && MemberOk(ms, 4, k4) && MemberOk(ms, 5, k5)
    ensures FieldsAt(Join(ms, ","), k0, k1, k2, k3, k4, k5) == ItemFields(
      Unquoted(RemoveAll(ms[0], Field(k0))), RemoveAll(ms[1], Field(k1)),
      Unquoted(RemoveAll(ms[2], Field(k2))), RemoveAll(ms[3], Field(k3)),
      RemoveAll(ms[4], Field(k4)), RemoveAll(ms[5], Field(k5)))
  {
    MemberTexts(ms, k0, k1, k2, k3, k4, k5);
  }

  /** The texts slicing cuts out of a comma join of six members, by their
      field names `k0` to `k5`. */
  lemma {:induction false} MemberTexts(ms: seq<string>, k0: string, k1: string, k2: string, k3: string, k4: string, k5: string)
    requires |ms| == 6
    requires MemberOk(ms, 0, k0) && MemberOk(ms, 1, k1) && MemberOk(ms, 2, k2)
    requires MemberOk(ms, 3, k3) && MemberOk(ms, 4, k4) && MemberOk(ms, 5, k5)
    ensures var item := Join(ms, ",");
      && FieldText(item, Find(item, k0) - 1, Find(item, k1) - 2, k0) == RemoveAll(ms[0], Field(k0))
      && FieldText(item, Find(item, k1) - 1, Find(item, k2) - 2, k1) == RemoveAll(ms[1], Field(k1))
      && FieldText(item, Find(item, k2) - 1, Find(item, k3) - 2, k2) == RemoveAll(ms[2], Field(k2))
      && FieldText(item, Find(item, k3) - 1, Find(item, k4) - 2, k3) == RemoveAll(ms[3], Field(k3))
      && FieldText(item, Find(item, k4) - 1, Find(item, k5) - 2, k4) == RemoveAll(ms[4], Field(k4))
      && FieldText(item, Find(item, k5) - 1, |item|, k5) == RemoveAll(ms[5], Field(k5))
  {
    MemberText(ms, 0, k0, k1);
    MemberText(ms, 1, k1, k2);
    MemberText(ms, 2, k2, k3);
    MemberText(ms, 3, k3, k4);
    MemberText(ms, 4, k4, k5);
    LastMemberText(ms, k5);
  }

  /** The text slicing cuts out for member `k` of a comma join, from one past
      where `key` is first found to two before where `next` is: the member
      less its `"key":` prefix. */
  lemma {:induction false} MemberText(ms: seq<string>, k: nat, key: string, next: string)
    requires k + 1 < |ms| && MemberOk(ms, k, key) && MemberOk(ms, k + 1, next)
    ensures var item := Join(ms, ",");
      FieldText(item, Find(item, key) - 1, Find(item, next) - 2, key) == RemoveAll(ms[k], Field(key))
  {
    var item := Join(ms, ",");
    JoinedMember(ms, k, key);
    JoinedMember(ms, k + 1, next);
    var start, stop := Find(item, key) - 1, Find(item, next) - 2;
    assert start == Offset(ms, k) && stop == End(ms, k);
    assert Slice(item, start, stop) == ms[k];
    assert FieldText(item, start, stop, key) == RemoveAll(Slice(item, start, stop), Field(key));
  }

  /** The same for the last member, which runs to the end of the join. */
  lemma {:induction false} LastMemberText(ms: seq<string>, key: string)
    requires |ms| > 0 && MemberOk(ms, |ms| - 1, key)
    ensures var item := Join(ms, ",");
      FieldText(item, Find(item, key) - 1, |item|, key) == RemoveAll(ms[|ms| - 1], Field(key))
  {
    var item := Join(ms, ",");
    JoinedMember(ms, |ms| - 1, key);
    var start := Find(item, key) - 1;
    assert start == Offset(ms, |ms| - 1) && |item| == End(ms, |ms| - 1);
    assert Slice(item, start, |item|) == ms[|ms| - 1];
    assert FieldText(item, start, |item|, key) == RemoveAll(Slice(item, start, |item|), Field(key));
  }

  /** Member `k` of a comma join: `key` is first found one past its start,
      and it runs to its end. */
  lemma {:induction false} JoinedMember(ms: seq<string>, k: nat, key: string)
    requires k < |ms| && MemberOk(ms, k, key)
    ensures Find(Join(ms, ","), key) == Offset(ms, k) + 1
    ensures Slice(Join(ms, ","), Offset(ms, k), End(ms, k)) == ms[k]
  {
    var value := ms[k][|Field(key)|..];
    assert ms[k] == Field(key) + value;
    MemberLaid(ms, k, key, value);
  }

  /** Member `k` of a comma join, when no earlier member holds its field
      name: that name is first found one past the member's start, and the
      member ends one before the next member's start. */
  lemma {:induction false} MemberLaid(ms: seq<string>, k: nat, key: string, value: string)
    requires k < |ms| && ms[k] == Field(key) + value
    requires key != [] && '"' !in key && ',' !in key
    requires ClearBefore(ms, k, key)
    ensures var item := Join(ms, ",");
      Find(item, key) == Offset(ms, k) + 1
      && Slice(item, Offset(ms, k), End(ms, k)) == ms[k]
  {
    MemberAt(ms, k, key, value);
    JoinBeforeLength(ms, k);
  }

  /** Where member `k` of a comma join ends: one before the next member's
      start, or at the end of the join. */
  function End(ms: seq<string>, k: nat): int
    requires k < |ms|
  {
    if k + 1 < |ms| then Offset(ms, k + 1) - 1 else |Join(ms, ",")|
  }

  /** Where member `k` of a comma join starts: past every earlier member
      and its comma. */
  function Offset(ms: seq<string>, k: nat): nat
    requires k <= |ms|
  {
    if k == 0 then 0 else Offset(ms, k - 1) + |ms[k - 1]| + 1
  }

  lemma {:induction false} JoinBeforeLength(ms: seq<string>, k: nat)
    requires k <= |ms|
    ensures |JoinBefore(ms, ",", k)| == Offset(ms, k)
  {
    if k > 0 {
      JoinBeforeLength(ms, k - 1);
      JoinBeforeNext(ms, ",", k - 1);
    }
  }

  /** No member before field `k`'s own holds its name. */
  lemma {:induction false} MembersClear(n: string, f: string, d: string, t: string, v: string, o: string, k: nat)
    requires Sliceable(n, f, d, t, v, o) && 0 < k < 6
    ensures ClearBefore(Members(n, f, d, t, v, o), k, FieldName(k))
  {
    var ms := Members(n, f, d, t, v, o);
    var vs := [n, f, d, t, v, o];
    forall j | 0 <= j < k
      ensures !Contains(ms[j], FieldName(k))
    {
      assert ms[j] == MemberOf(j, vs[j]);
      MemberClear(j, k, vs[j]);
    }
  }

  /** Member `j` holds no later field's name when its value does not: each
      such name has a character the member's `"key":` prefix lacks. */
  lemma {:induction false} MemberClear(j: nat, k: nat, x: string)
    requires j < k < 6 && !Contains(x, FieldName(k))
    ensures !Contains(MemberOf(j, x), FieldName(k))
  {
    var c := Witness(j, k);
    WitnessSet(j, k);
    if j == 0 || j == 2 {
      QuotedAvoids(FieldName(j), x, FieldName(k), c);
    } else {
      MemberAvoids(FieldName(j), x, FieldName(k), c);
    }
  }

  /** Where a member sits in the joined item: the first occurrence of its
      field name is one past the member's start, when no earlier member holds
      that name. */
  lemma {:induction false} MemberAt(ms: seq<string>, k: nat, key: string, value: string)
    requires k < |ms| && ms[k] == Field(key) + value
    requires key != [] && '"' !in key && ',' !in key
    requires forall j :: 0 <= j < k ==> !Contains(ms[j], key)
    ensures var item := Join(ms, ",");
      var b := |JoinBefore(ms, ",", k)|;
      Find(item, key) == b + 1 && b + |ms[k]| <= |item|
      && Slice(item, b, b + |ms[k]|) == ms[k]
      && (k + 1 == |ms| ==> b + |ms[k]| == |item|)
  {
    var before := JoinBefore(ms, ",", k);
    var after := JoinAfter(ms, ",", k);
    JoinAround(ms, ",", k);
    JoinBeforeClear(ms, ',', k, key);
    MemberFound(key, value, after);
    FindAppend(before, ms[k] + after, key);
    MiddleSlice(before, ms[k], after);
  }

  /** The field name sits one character into its member. */
  lemma {:induction false} MemberFound(key: string, value: string, after: string)
    requires key != [] && '"' !in key
    ensures Find(Field(key) + value + after, key) == 1
  {
    var rest := "\":" + value + after;
    assert Field(key) + value + after == "\"" + (key + rest);
    NotContainsChar("\"", key, key[0]);
    FindAtStart(key, rest);
    FindAppend("\"", key + rest, key);
  }

  lemma {:induction false} MiddleSlice(a: string, m: string, b: string)
    ensures a + m + b == a + (m + b)
    ensures Slice(a + m + b, |a|, |a| + |m|) == m
  {
    assert (a + m + b)[|a|..|a| + |m|] == m;
  }

  /** A member whose prefix lacks character `c` of `w` and whose value holds
      no `w` holds no `w`. */
  lemma {:induction false} MemberAvoids(key: string, x: string, w: string, c: char)
    requires c in w && c !in Field(key) && ':' !in w && !Contains(x, w)
    ensures !Contains(Field(key) + x, w)
  {
    NotContainsChar(Field(key), w, c);
    ContainsAppend(Field(key), x, w);
  }

  lemma {:induction false} QuotedAvoids(key: string, x: string, w: string, c: char)
    requires c in w && c !in Field(key) && ':' !in w && '"' !in w && !Contains(x, w)
    ensures !Contains(Field(key) + Quoted(x), w)
  {
    NotContainsChar("\"", w, c);
    ContainsAppend("\"", x, w);
    ContainsAppend("\"" + x, "\"", w);
    MemberAvoids(key, Quoted(x), w, c);
  }

  /** Removing a member's `"key":` prefix leaves its value. */
  lemma {:induction false} MemberValue(key: string, x: string)
    requires !Contains(x, Field(key))
    ensures RemoveAll(Field(key) + x, Field(key)) == x
  {
    RemoveAllLead(Field(key), x);
    RemoveAllAbsent(x, Field(key));
  }

  /** A quoted value without `"` holds no `"key":`, and removing its quotes
      gives it back. */
  lemma {:induction false} QuotedValue(key: string, x: string)
    requires key != [] && '"' !in x
    ensures Unquoted(RemoveAll(Field(key) + Quoted(x), Field(key))) == x
  {
    QuotedNoField(key, x);
    MemberValue(key, Quoted(x));
    WithoutAppend("\"" + x, "\"", '"');
    WithoutAppend("\"", x, '"');
    WithoutAbsent(x, '"');
  }

  /** `"x"` cannot hold `"key":`: its only quotes are its first and last
      characters, and nothing follows the last. */
  lemma {:induction false} QuotedNoField(key: string, x: string)
    requires key != [] && '"' !in x
    ensures !Contains(Quoted(x), Field(key))
  {
    var s := Quoted(x);
    var w := Field(key);
    forall i | 0 <= i <= |s|
      ensures !OccursAt(s, w, i)
    {
      if i + |w| <= |s| {
        var at := s[i..i + |w|];
        var q := if i > 0 then 0 else |key| + 1;
        assert w[q] == '"';
        assert at[q] == x[i + q - 1] != '"';
      }
    }
  }

  /** One item as a (key, parameter) pair, or the error it raises: the flag
      rules raise first, the literal evaluation second. `literalEval` stands
      for `ast.literal_eval`. */
  function ParseItem(raw: string, toolName: string, literalEval: string -> Option<ParamType>)
    : (r: Result<(string, RawParam), ParseError>)
    ensures r.Ok? ==> r.value.0 == r.value.1.flags
    ensures r.Ok? ==> '"' !in r.value.1.name && '"' !in r.value.1.description
    ensures r.Ok? ==> var f := SliceFields(raw);
      && CollapseFlags(f.flags, toolName) == Ok(r.value.0)
      && literalEval(f.typeText) == Some(r.value.1.paramType)
      && r.value.1.name == f.name && r.value.1.description == f.description
      && r.value.1.defaultValue == f.defaultValue && r.value.1.optional == f.optional
    ensures r.Err? <==>
      CollapseFlags(SliceFields(raw).flags, toolName).Err? || literalEval(SliceFields(raw).typeText).None?
    ensures CollapseFlags(SliceFields(raw).flags, toolName).Err? ==>
      r == Err(NoFlagDash(SliceFields(raw).flags))
    ensures CollapseFlags(SliceFields(raw).flags, toolName).Ok? && literalEval(SliceFields(raw).typeText).None? ==>
      r == Err(BadLiteral(SliceFields(raw).typeText))
  {
    var f := SliceFields(raw);
    var key :- CollapseFlags(f.flags, toolName);
    match literalEval(f.typeText)
    case None => Err(BadLiteral(f.typeText))
    case Some(paramType) => Ok((key, RawParam(f.name, key, f.description, paramType, f.defaultValue, f.optional)))
  }

  /** Every pair is keyed by its parameter's `flags`. */
  predicate KeyedByFlags(ps: seq<(string, RawParam)>) {
    forall i :: 0 <= i < |ps| ==> ps[i].0 == ps[i].1.flags
  }

  /** `ps` holds the parse of each item, in order. */
  predicate ParsedFrom(items: seq<string>, ps: seq<(string, RawParam)>, toolName: string,
                       literalEval: string -> Option<ParamType>) {
    |ps| == |items| && forall i :: 0 <= i < |items| ==> ParseItem(items[i], toolName, literalEval) == Ok(ps[i])
  }

  /** The parse of every item, in order, stopping at the first error. */
  function ParseItems(items: seq<string>, toolName: string, literalEval: string -> Option<ParamType>)
    : (r: Result<seq<(string, RawParam)>, ParseError>)
    ensures r.Err? ==> !r.error.NoOpenBracket?
    ensures r.Ok? ==> KeyedByFlags(r.value)
    ensures r.Ok? <==> forall i :: 0 <= i < |items| ==> ParseItem(items[i], toolName, literalEval).Ok?
    ensures r.Ok? ==> ParsedFrom(items, r.value, toolName, literalEval)
    ensures r.Err? ==>
      exists i ::
        && 0 <= i < |items|
        && ParseItem(items[i], toolName, literalEval) == Err(r.error)
        && (forall j :: 0 <= j < i ==> ParseItem(items[j], toolName, literalEval).Ok?)
  {
    Traverse(items, (item: string) => ParseItem(item, toolName, literalEval))
  }

  /** `get_tool_params` applied to the text `wbt.tool_parameters` printed. */
  function GetToolParams(out: string, toolName: string, literalEval: string -> Option<ParamType>)
    : (r: Result<Dict<RawParam>, ParseError>)
    ensures r.Ok? ==> Valid(r.value)
  {
    var text :- ParamsText(out);
    var pairs :- ParseItems(Items(Split(text, NameOpen)), toolName, literalEval);
    Ok(FromPairs(pairs))
  }

  /** The items `GetToolParams` parses, when the output holds a `[`. */
  function OutputItems(out: string): seq<string>
    requires ParamsText(out).Ok?
  {
    Items(Split(ParamsText(out).value, NameOpen))
  }

  /** The parsed pairs `GetToolParams` collects, when it succeeds. */
  function ParsedPairs(out: string, toolName: string, literalEval: string -> Option<ParamType>)
    : seq<(string, RawParam)>
    requires GetToolParams(out, toolName, literalEval).Ok?
  {
    ParseItems(OutputItems(out), toolName, literalEval).value
  }

  /** The output raises `NoOpenBracket` exactly when it holds no `[`; no
      later step raises that error. */
  lemma GetToolParamsNoBracket(out: string, toolName: string, literalEval: string -> Option<ParamType>)
    ensures '[' !in out <==> GetToolParams(out, toolName, literalEval) == Err(NoOpenBracket)
  {
  }

  /** The dict holds each parsed key once, in order of first appearance, and
      under it the parameter parsed last with that key: a later parameter
      overwrites an earlier one in place. Each value's `flags` is its key. */
  lemma GetToolParamsLastWins(out: string, toolName: string, literalEval: string -> Option<ParamType>, k: string)
    requires GetToolParams(out, toolName, literalEval).Ok?
    ensures var d := GetToolParams(out, toolName, literalEval).value;
      var ps := ParsedPairs(out, toolName, literalEval);
      d.keys == FirstKeys(ps)
      && FirstAppearanceOrder(ps, d.keys)
      && Get(d, k) == LastValue(ps, k)
      && (Get(d, k).Some? ==> Get(d, k).value.flags == k)
    ensures var d := GetToolParams(out, toolName, literalEval).value;
      Get(d, k).Some? ==> LastItemWithKey(OutputItems(out), k, Get(d, k).value, toolName, literalEval)
  {
    var ps := ParsedPairs(out, toolName, literalEval);
    FromPairsKeys(ps);
    FromPairsLastWins(ps, k);
    if LastValue(ps, k).Some? {
      LastPairFromItem(OutputItems(out), ps, k, toolName, literalEval);
    }
  }

  /** Item `i` parses to `(k, v)`, its flags collapse to `k`, and no later
      item parses to key `k`. */
  predicate LastItemWithKey(items: seq<string>, k: string, v: RawParam, toolName: string,
                            literalEval: string -> Option<ParamType>) {
    exists i ::
      && 0 <= i < |items|
      && ParseItem(items[i], toolName, literalEval) == Ok((k, v))
      && CollapseFlags(SliceFields(items[i]).flags, toolName) == Ok(k)
      && (forall j :: i < j < |items| ==> !ParsesToKey(items[j], k, toolName, literalEval))
  }

  predicate ParsesToKey(item: string, k: string, toolName: string, literalEval: string -> Option<ParamType>) {
    ParseItem(item, toolName, literalEval).Ok? && ParseItem(item, toolName, literalEval).value.0 == k
  }

  /** The pair found last for `k` comes from the last item parsed to `k`. */
  lemma {:induction false} LastPairFromItem(items: seq<string>, ps: seq<(string, RawParam)>, k: string,
                                            toolName: string, literalEval: string -> Option<ParamType>)
    requires ParsedFrom(items, ps, toolName, literalEval) && LastValue(ps, k).Some?
    ensures LastItemWithKey(items, k, LastValue(ps, k).value, toolName, literalEval)
  {
    LastValueIsLast(ps, k);
    var v := LastValue(ps, k).value;
    var i :| 0 <= i < |ps| && ps[i] == (k, v) && (forall j :: i < j < |ps| ==> ps[j].0 != k);
    assert ParseItem(items[i], toolName, literalEval) == Ok((k, v));
    NoLaterKey(items, ps, k, i, toolName, literalEval);
  }

  /** No item after `i` parses to a key that no pair after `i` has. */
  lemma NoLaterKey(items: seq<string>, ps: seq<(string, RawParam)>, k: string, i: nat,
                   toolName: string, literalEval: string -> Option<ParamType>)
    requires ParsedFrom(items, ps, toolName, literalEval)
    requires forall j :: i < j < |ps| ==> ps[j].0 != k
    ensures forall j :: i < j < |items| ==> !ParsesToKey(items[j], k, toolName, literalEval)
  {
    forall j | i < j < |items|
      ensures !ParsesToKey(items[j], k, toolName, literalEval)
    {
      assert ParseItem(items[j], toolName, literalEval) == Ok(ps[j]);
    }
  }
}
