/** `run_button_clicked`: a walk over the form's controls in order, with a
    copy of the required keys as the list of keys still pending. The walk
    builds one argument line per control and ends in one of three ways:
    the tool is dispatched once with those lines, it is not dispatched, or
    `list.remove` raises `ValueError` for a key that is not pending. */
module Run {
  import opened Results
  import opened Form

  datatype Outcome =
    | Dispatch(args: seq<string>)
    /** `prompted` tells whether the "Please provide inputs" message was
        printed (the walk stopped early) or not (keys were left pending). */
    | NoDispatch(prompted: bool)
    /** `required_params.remove(key)` with `key` not in the list. */
    | Raised(key: string)

  /** Chooser and text controls: the ones the walk checks against the
      pending list. */
  predicate IsEntry(c: Control) {
    c.Chooser? || c.Text?
  }

  /** An entry holding a value: a selected file, non-empty text. */
  predicate Filled(c: Control) {
    match c
    case Chooser(sel) => sel.Some?
    case Text(v) => v != []
    case _ => true
  }

  /** Python's formatting of a selection, `None` included. */
  function SelectionText(sel: Option<string>): string {
    match sel
    case None => "None"
    case Some(path) => path
  }

  /** The argument line of lines 431-446 for one control. */
  function Line(f: Field): string {
    match f.control
    case Chooser(sel) => (if f.key == "i" then "-" else "--") + f.key + "=" + SelectionText(sel)
    case Text(v) => if v != [] then "--" + f.key + "=" + v else ""
    case Checkbox(b) => "--" + f.key + "=" + (if b then "True" else "False")
    case Dropdown(_) => ""
  }

  /** What a line hands the tool, read back: the option name between the
      leading dashes and the first `=`, and the value after that `=`. */
  function ReadLine(line: string): (string, string) {
    var body := DropDashes(line);
    (BeforeEq(body), AfterEq(body))
  }

  function DropDashes(s: string): string {
    if s != [] && s[0] == '-' then DropDashes(s[1..]) else s
  }

  function BeforeEq(s: string): string {
    if s == [] || s[0] == '=' then [] else [s[0]] + BeforeEq(s[1..])
  }

  function AfterEq(s: string): string {
    if s == [] then [] else if s[0] == '=' then s[1..] else AfterEq(s[1..])
  }

  /** The value a control hands the tool, as Python formats it. */
  function ValueText(c: Control): string {
    match c
    case Chooser(sel) => SelectionText(sel)
    case Text(v) => v
    case Checkbox(b) => if b then "True" else "False"
    case Dropdown(_) => ""
  }

  /** A line is empty exactly for a drop-down or an empty text box. Any other
      line reads back as the control's key and value, behind one dash for the
      chooser keyed `i` and two otherwise. */
  lemma {:induction false} LineReadsBack(f: Field)
    requires f.key != [] && f.key[0] != '-' && '=' !in f.key
    ensures Line(f) == "" <==> f.control.Dropdown? || f.control == Text([])
    ensures Line(f) != "" ==> ReadLine(Line(f)) == (f.key, ValueText(f.control))
    ensures Line(f) != "" ==>
      |Line(f)| > 2 && (Line(f)[1] == '-' <==> !(f.control.Chooser? && f.key == "i"))
  {
    var tail := f.key + "=" + ValueText(f.control);
    KeyValue(f.key, ValueText(f.control));
    if !(f.control.Dropdown? || f.control == Text([])) {
      var dashes := if f.control.Chooser? && f.key == "i" then "-" else "--";
      assert Line(f) == dashes + tail;
      DashesDropped(dashes, tail);
    }
  }

  lemma {:induction false} DashesDropped(dashes: string, tail: string)
    requires 0 < |dashes| <= 2 && forall i :: 0 <= i < |dashes| ==> dashes[i] == '-'
    requires tail != [] && tail[0] != '-'
    ensures DropDashes(dashes + tail) == tail
  {
    var s := dashes + tail;
    assert s[0] == '-' && s[1..] == dashes[1..] + tail;
    if |dashes| == 1 {
      assert s[1..] == tail;
    } else {
      assert s[1] == '-' && s[1..][1..] == tail;
      assert DropDashes(tail) == tail;
      assert DropDashes(s[1..]) == DropDashes(tail);
    }
  }

  lemma {:induction false} KeyValue(key: string, value: string)
    requires '=' !in key
    ensures BeforeEq(key + "=" + value) == key && AfterEq(key + "=" + value) == value
    decreases |key|
  {
    if key != [] {
      KeyValue(key[1..], value);
      assert (key + "=" + value)[1..] == key[1..] + "=" + value;
    } else {
      assert (key + "=" + value)[1..] == value;
    }
  }

  function Lines(fields: seq<Field>): (r: seq<string>)
    ensures |r| == |fields| && forall i :: 0 <= i < |fields| ==> r[i] == Line(fields[i])
  {
    if fields == [] then []
    else
      var rest := Lines(fields[1..]);
      assert forall i :: 1 <= i < |fields| ==> rest[i - 1] == Line(fields[i]) by {
        assert forall i :: 1 <= i < |fields| ==> fields[1..][i - 1] == fields[i];
      }
      [Line(fields[0])] + rest
  }

  /** `list.remove`: drops the first occurrence. */
  function RemoveFirst(xs: seq<string>, x: string): (r: seq<string>)
    requires x in xs
    ensures |r| == |xs| - 1
    ensures Distinct(xs) ==> Distinct(r) && forall y :: y in r <==> y in xs && y != x
  {
    if xs[0] == x then xs[1..]
    else
      var rest := RemoveFirst(xs[1..], x);
      assert Distinct(xs) ==> Distinct(xs[1..]) && xs[0] !in xs[1..];
      assert Distinct(xs) ==> xs[0] !in rest;
      [xs[0]] + rest
  }

  /** The loop of lines 422-446 from some control on, with the keys still
      pending and the lines built so far. */
  function RunLoop(fields: seq<Field>, pending: seq<string>, acc: seq<string>): (r: Outcome)
    ensures r.Dispatch? ==> r.args == acc + Lines(fields)
    decreases |fields|
  {
    if fields == [] then
      if pending == [] then Dispatch(acc) else NoDispatch(false)
    else
      var f := fields[0];
      if IsEntry(f.control) then
        if f.key in pending && !Filled(f.control) then NoDispatch(true)
        else if f.key !in pending then Raised(f.key)
        else RunLoop(fields[1..], RemoveFirst(pending, f.key), acc + [Line(f)])
      else RunLoop(fields[1..], pending, acc + [Line(f)])
  }

  /** `run_button_clicked` on a form whose controls hold their current
      values. */
  function RunClicked(form: Form): (r: Outcome)
    ensures r.Dispatch? ==> r.args == Lines(form.fields)
  {
    assert [] + Lines(form.fields) == Lines(form.fields);
    RunLoop(form.fields, form.required, [])
  }

  /** Dropping the first control keeps the keys distinct, and none of the
      remaining controls shares the first one's key. */
  lemma TailKeys(fields: seq<Field>)
    requires fields != [] && DistinctKeys(fields)
    ensures DistinctKeys(fields[1..])
    ensures forall i :: 0 <= i < |fields| - 1 ==> fields[1..][i] == fields[i + 1]
    ensures forall i :: 1 <= i < |fields| ==> fields[i].key != fields[0].key
  {
  }

  /** Every chooser and text control is required and filled in. */
  predicate EntriesReady(fields: seq<Field>, required: seq<string>) {
    forall i :: 0 <= i < |fields| && IsEntry(fields[i].control) ==>
      fields[i].key in required && Filled(fields[i].control)
  }

  /** Every required key belongs to a chooser or text control. */
  predicate RequiredAreEntries(fields: seq<Field>, required: seq<string>) {
    forall k :: k in required ==> exists i :: 0 <= i < |fields| && fields[i].key == k && IsEntry(fields[i].control)
  }

  /** The loop dispatches exactly when every chooser and text control is
      pending and filled, and every pending key is a chooser's or a text
      control's. */
  lemma {:induction false} RunLoopDispatch(fields: seq<Field>, pending: seq<string>, acc: seq<string>)
    requires DistinctKeys(fields) && Distinct(pending)
    ensures RunLoop(fields, pending, acc).Dispatch?
      <==> EntriesReady(fields, pending) && RequiredAreEntries(fields, pending)
    decreases |fields|
  {
    if fields != [] {
      var f := fields[0];
      var tail := fields[1..];
      TailKeys(fields);
      if IsEntry(f.control) && !(f.key in pending && Filled(f.control)) {
        assert !EntriesReady(fields, pending) by { assert fields[0] == f; }
      } else {
        var p := if IsEntry(f.control) then RemoveFirst(pending, f.key) else pending;
        RunLoopDispatch(tail, p, acc + [Line(f)]);
        StepReady(fields, pending, p);
      }
    } else if pending != [] {
      assert pending[0] in pending;
    }
  }

  /** Passing the first control: the conditions on the whole walk hold
      exactly when they hold on the rest of it, with the first key taken
      off the pending list when the first control is an entry. */
  lemma StepReady(fields: seq<Field>, pending: seq<string>, p: seq<string>)
    requires fields != [] && DistinctKeys(fields) && Distinct(pending)
    requires IsEntry(fields[0].control) ==> fields[0].key in pending && Filled(fields[0].control)
    requires p == if IsEntry(fields[0].control) then RemoveFirst(pending, fields[0].key) else pending
    ensures EntriesReady(fields, pending) && RequiredAreEntries(fields, pending)
      <==> EntriesReady(fields[1..], p) && RequiredAreEntries(fields[1..], p)
  {
    var f := fields[0];
    var tail := fields[1..];
    TailKeys(fields);
    if EntriesReady(tail, p) && RequiredAreEntries(tail, p) {
      forall k | k in pending
        ensures exists i :: 0 <= i < |fields| && fields[i].key == k && IsEntry(fields[i].control)
      {
        if k in p {
          var i :| 0 <= i < |tail| && tail[i].key == k && IsEntry(tail[i].control);
          assert fields[i + 1] == tail[i];
        } else {
          assert k == f.key && IsEntry(f.control);
        }
      }
      forall i | 0 <= i < |fields| && IsEntry(fields[i].control)
        ensures fields[i].key in pending && Filled(fields[i].control)
      {
        if i > 0 {
          assert tail[i - 1] == fields[i];
        }
      }
    }
    if EntriesReady(fields, pending) && RequiredAreEntries(fields, pending) {
      forall k | k in p
        ensures exists i :: 0 <= i < |tail| && tail[i].key == k && IsEntry(tail[i].control)
      {
        var i :| 0 <= i < |fields| && fields[i].key == k && IsEntry(fields[i].control);
        assert i != 0;
        assert tail[i - 1] == fields[i];
      }
      forall i | 0 <= i < |tail| && IsEntry(tail[i].control)
        ensures tail[i].key in p && Filled(tail[i].control)
      {
        assert tail[i] == fields[i + 1];
      }
    }
  }

  /** The tool is dispatched, with one line per control, exactly when every
      chooser and text control is required and filled in and every required
      key belongs to one of them. */
  lemma RunDispatchIff(form: Form)
    requires WellFormed(form)
    ensures RunClicked(form).Dispatch?
      <==> EntriesReady(form.fields, form.required) && RequiredAreEntries(form.fields, form.required)
    ensures RunClicked(form).Dispatch? ==> RunClicked(form).args == Lines(form.fields)
  {
    RunLoopDispatch(form.fields, form.required, []);
  }

  /** A required checkbox or drop-down is never taken off the pending list,
      so the tool is never dispatched, whatever the controls hold. */
  lemma RequiredNonEntryBlocks(form: Form, k: string)
    requires WellFormed(form)
    requires k in form.required
    requires forall i :: 0 <= i < |form.fields| && form.fields[i].key == k ==> !IsEntry(form.fields[i].control)
    ensures !RunClicked(form).Dispatch?
  {
    RunDispatchIff(form);
  }

  /** Controls before position `i` that the walk passes without stopping. */
  predicate PassedBefore(fields: seq<Field>, required: seq<string>, i: int)
    requires 0 <= i <= |fields|
  {
    forall j :: 0 <= j < i && IsEntry(fields[j].control) ==>
      fields[j].key in required && Filled(fields[j].control)
  }

  /** The first chooser or text control the walk cannot pass decides the
      outcome: an optional one raises on `remove`, a required empty one
      stops the walk with the prompt. */
  lemma {:induction false} RunLoopStops(fields: seq<Field>, pending: seq<string>, acc: seq<string>, i: nat)
    requires DistinctKeys(fields) && Distinct(pending)
    requires i < |fields| && IsEntry(fields[i].control)
    requires PassedBefore(fields, pending, i)
    requires !(fields[i].key in pending && Filled(fields[i].control))
    ensures RunLoop(fields, pending, acc)
      == if fields[i].key in pending then NoDispatch(true) else Raised(fields[i].key)
    decreases i
  {
    if i > 0 {
      var p := PendingAfterFirst(fields, pending);
      PassedStep(fields, pending, i);
      RunStep(fields, pending, acc, i);
      RunLoopStops(fields[1..], p, acc + [Line(fields[0])], i - 1);
    }
  }

  /** The keys still pending once the walk has passed the first control. */
  function PendingAfterFirst(fields: seq<Field>, pending: seq<string>): seq<string>
    requires fields != []
    requires IsEntry(fields[0].control) ==> fields[0].key in pending
  {
    if IsEntry(fields[0].control) then RemoveFirst(pending, fields[0].key) else pending
  }

  /** Passing the first control keeps the walk's conditions for the
      controls after it. */
  lemma PassedStep(fields: seq<Field>, pending: seq<string>, i: nat)
    requires DistinctKeys(fields) && Distinct(pending)
    requires 0 < i < |fields| && IsEntry(fields[i].control)
    requires PassedBefore(fields, pending, i)
    ensures IsEntry(fields[0].control) ==> fields[0].key in pending && Filled(fields[0].control)
    ensures var p := PendingAfterFirst(fields, pending);
      && DistinctKeys(fields[1..]) && Distinct(p)
      && fields[1..][i - 1] == fields[i]
      && PassedBefore(fields[1..], p, i - 1)
      && (fields[i].key in p <==> fields[i].key in pending)
  {
    var tail := fields[1..];
    var p := PendingAfterFirst(fields, pending);
    TailKeys(fields);
    forall j | 0 <= j < i - 1 && IsEntry(tail[j].control)
      ensures tail[j].key in p && Filled(tail[j].control)
    {
      assert tail[j] == fields[j + 1];
    }
  }

  /** The walk past a first control it can pass. */
  lemma RunStep(fields: seq<Field>, pending: seq<string>, acc: seq<string>, i: nat)
    requires 0 < i < |fields|
    requires IsEntry(fields[0].control) ==> fields[0].key in pending && Filled(fields[0].control)
    ensures RunLoop(fields, pending, acc)
      == RunLoop(fields[1..], PendingAfterFirst(fields, pending), acc + [Line(fields[0])])
  {
  }

  /** An optional chooser or text control reached by the walk raises
      `ValueError`. */
  lemma OptionalEntryRaises(form: Form, i: nat)
    requires WellFormed(form)
    requires i < |form.fields| && IsEntry(form.fields[i].control)
    requires form.fields[i].key !in form.required
    requires PassedBefore(form.fields, form.required, i)
    ensures RunClicked(form) == Raised(form.fields[i].key)
  {
    RunLoopStops(form.fields, form.required, [], i);
  }

  /** A required chooser or text control left empty stops the walk with the
      prompt, and nothing is dispatched. */
  lemma RequiredEmptyStops(form: Form, i: nat)
    requires WellFormed(form)
    requires i < |form.fields| && IsEntry(form.fields[i].control)
    requires form.fields[i].key in form.required && !Filled(form.fields[i].control)
    requires PassedBefore(form.fields, form.required, i)
    ensures RunClicked(form) == NoDispatch(true)
  {
    RunLoopStops(form.fields, form.required, [], i);
  }

  // ---------------------------------------------------------------------------
  // The walk as evidently intended

  /** A control counts as provided when it is not an empty entry:
      checkboxes and drop-downs always hold a value. */
  function IntendedLine(f: Field): string {
    if f.control == Chooser(None) then "" else Line(f)
  }

  /** Drops `x` when present, leaves the list alone otherwise. */
  function Discard(xs: seq<string>, x: string): (r: seq<string>)
    ensures Distinct(xs) ==> Distinct(r) && forall y :: y in r <==> y in xs && y != x
  {
    if x in xs then RemoveFirst(xs, x) else xs
  }

  /** The walk with `remove` guarded by membership and every control kind
      taking its key off the pending list; empty entries still stop it
      when required. */
  function IntendedLoop(fields: seq<Field>, pending: seq<string>, acc: seq<string>): (r: Outcome)
    ensures !r.Raised?
    decreases |fields|
  {
    if fields == [] then
      if pending == [] then Dispatch(acc) else NoDispatch(false)
    else
      var f := fields[0];
      if f.key in pending && !Filled(f.control) then NoDispatch(true)
      else IntendedLoop(fields[1..], Discard(pending, f.key), acc + [IntendedLine(f)])
  }

  function RunIntended(form: Form): Outcome {
    IntendedLoop(form.fields, form.required, [])
  }

  /** Every pending key has a control, and every control for a pending key
      holds a value. */
  predicate RequiredProvided(fields: seq<Field>, required: seq<string>) {
    (forall k :: k in required ==> exists i :: 0 <= i < |fields| && fields[i].key == k)
    && forall i :: 0 <= i < |fields| && fields[i].key in required ==> Filled(fields[i].control)
  }

  lemma {:induction false} IntendedLoopDispatch(fields: seq<Field>, pending: seq<string>, acc: seq<string>)
    requires DistinctKeys(fields) && Distinct(pending)
    ensures IntendedLoop(fields, pending, acc).Dispatch? <==> RequiredProvided(fields, pending)
    decreases |fields|
  {
    if fields != [] {
      var f := fields[0];
      var tail := fields[1..];
      TailKeys(fields);
      if f.key in pending && !Filled(f.control) {
        assert !RequiredProvided(fields, pending) by { assert fields[0] == f; }
      } else {
        var p := Discard(pending, f.key);
        IntendedLoopDispatch(tail, p, acc + [IntendedLine(f)]);
        if RequiredProvided(tail, p) {
          forall k | k in pending
            ensures exists i :: 0 <= i < |fields| && fields[i].key == k
          {
            if k != f.key {
              var i :| 0 <= i < |tail| && tail[i].key == k;
              assert fields[i + 1] == tail[i];
            } else {
              assert fields[0].key == k;
            }
          }
          forall i | 0 <= i < |fields| && fields[i].key in pending
            ensures Filled(fields[i].control)
          {
            if i > 0 {
              assert tail[i - 1] == fields[i];
            }
          }
        }
        if RequiredProvided(fields, pending) {
          forall k | k in p
            ensures exists i :: 0 <= i < |tail| && tail[i].key == k
          {
            var i :| 0 <= i < |fields| && fields[i].key == k;
            assert i != 0;
            assert tail[i - 1] == fields[i];
          }
          forall i | 0 <= i < |tail| && tail[i].key in p
            ensures Filled(tail[i].control)
          {
            assert tail[i] == fields[i + 1];
          }
        }
      }
    } else if pending != [] {
      assert pending[0] in pending;
    }
  }

  /** As intended, the tool is dispatched exactly when every required
      parameter has a control holding a value, and the walk never raises. */
  lemma RunIntendedDispatchIff(form: Form)
    requires WellFormed(form)
    ensures RunIntended(form).Dispatch? <==> RequiredProvided(form.fields, form.required)
    ensures !RunIntended(form).Raised?
  {
    IntendedLoopDispatch(form.fields, form.required, []);
  }

  /** A dialog with a required input file chosen and an optional text
      parameter filled in: the walk as written raises on the optional key,
      while the intended one dispatches both lines. */
  lemma OptionalTextRaisesAsWritten()
    ensures var form := Form([Field("i", "Input DEM*", Chooser(Some("dem.tif"))),
                              Field("zfactor", "Z Factor", Text("1.0"))], ["i"]);
      WellFormed(form)
      && RunClicked(form) == Raised("zfactor")
      && RunIntended(form) == Dispatch(["-i=dem.tif", "--zfactor=1.0"])
  {
    var form := Form([Field("i", "Input DEM*", Chooser(Some("dem.tif"))),
                      Field("zfactor", "Z Factor", Text("1.0"))], ["i"]);
    assert RemoveFirst(["i"], "i") == [];
    assert Line(form.fields[0]) == "-i=dem.tif";
    assert RunLoop(form.fields[1..], [], ["-i=dem.tif"]) == Raised("zfactor");
    assert IntendedLine(form.fields[1]) == "--zfactor=1.0";
    assert IntendedLoop(form.fields[1..], [], ["-i=dem.tif"])
        == IntendedLoop([], [], ["-i=dem.tif", "--zfactor=1.0"]);
  }

  /** A required checkbox is never dispatched as written, checked or not;
      the intended walk dispatches it. */
  lemma RequiredCheckboxBlocksAsWritten(b: bool)
    ensures var form := Form([Field("flag", "Flag*", Checkbox(b))], ["flag"]);
      WellFormed(form)
      && RunClicked(form) == NoDispatch(false)
      && RunIntended(form) == Dispatch(["--flag=" + (if b then "True" else "False")])
  {
    var form := Form([Field("flag", "Flag*", Checkbox(b))], ["flag"]);
    assert "--" + "flag" + "=" == "--flag=";
    assert form.fields[1..] == [];
    assert RunLoop(form.fields, ["flag"], []) == RunLoop([], ["flag"], [Line(form.fields[0])]);
    assert Discard(["flag"], "flag") == [];
    assert IntendedLoop(form.fields, ["flag"], []) == IntendedLoop([], [], [IntendedLine(form.fields[0])]);
  }
}
