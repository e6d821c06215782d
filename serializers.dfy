/** The Serializer: the schema it snapshots at construction, and `is_valid`,
    which runs the fields in declaration order and stops at the first failure. */
module Serializers {
  import opened Values
  import opened Fields

  /** Named declarations, in declaration order. */
  type Schema = seq<(string, Field)>

  /** `not k.startswith('_')` */
  predicate IsPublic(name: string)
  {
    !(|name| > 0 && name[0] == '_')
  }

  predicate DistinctNames(fields: Schema)
  {
    forall i, j :: 0 <= i < j < |fields| ==> fields[i].0 != fields[j].0
  }

  /** The declarations `__init__` keeps: the public ones, in order. */
  function PublicFields(attrs: Schema): (r: Schema)
    ensures |r| <= |attrs|
    ensures forall i :: 0 <= i < |r| ==> IsPublic(r[i].0)
  {
    if attrs == [] then []
    else
      var last := attrs[|attrs| - 1];
      PublicFields(attrs[..|attrs| - 1]) + (if IsPublic(last.0) then [last] else [])
  }

  /** A declaration is kept exactly when it is public. */
  lemma {:induction false} PublicFieldsKeep(attrs: Schema, a: (string, Field))
    ensures a in PublicFields(attrs) <==> a in attrs && IsPublic(a.0)
    decreases |attrs|
  {
    if attrs != [] {
      var init := attrs[..|attrs| - 1];
      PublicFieldsKeep(init, a);
      assert attrs == init + [attrs[|attrs| - 1]];
    }
  }

  /** Keeping the public declarations preserves their order: it distributes
      over concatenation. */
  lemma {:induction false} PublicFieldsAppend(attrs: Schema, more: Schema)
    ensures PublicFields(attrs + more) == PublicFields(attrs) + PublicFields(more)
    decreases |more|
  {
    if more == [] {
      assert attrs + more == attrs;
    } else {
      var init := more[..|more| - 1];
      assert (attrs + more)[..|attrs + more| - 1] == attrs + init;
      PublicFieldsAppend(attrs, init);
    }
  }

  /** Distinct declaration names stay distinct among the kept ones. */
  lemma {:induction false} PublicFieldsDistinct(attrs: Schema)
    requires DistinctNames(attrs)
    ensures DistinctNames(PublicFields(attrs))
    decreases |attrs|
  {
    if attrs != [] {
      var init := attrs[..|attrs| - 1];
      var last := attrs[|attrs| - 1];
      PublicFieldsDistinct(init);
      if IsPublic(last.0) {
        var kept := PublicFields(init);
        forall i | 0 <= i < |kept| ensures kept[i].0 != last.0 {
          PublicFieldsKeep(init, kept[i]);
          var j :| 0 <= j < |init| && init[j] == kept[i];
        }
      }
    }
  }

  /** The outcome of a run of `is_valid`: success with the collected data, or
      the first failure's message with the data collected before it. */
  datatype Verdict = Accepted(data: map<string, Value>) | Rejected(error: string, data: map<string, Value>)

  /** `is_valid` over the fields in order, specified as a function: each
      field is validated only while all earlier ones succeeded. */
  function Run(fields: Schema, input: map<string, string>, env: Env): (v: Verdict)
    ensures v.Rejected? ==> v.error != ""
    decreases |fields|
  {
    if fields == [] then Accepted(map[])
    else
      var prior := Run(fields[..|fields| - 1], input, env);
      var (k, f) := fields[|fields| - 1];
      if prior.Rejected? then prior
      else
        match Validate(f, k, input, env)
        case Err(message) => Rejected(message, prior.data)
        case Ok(v) => Accepted(prior.data[k := v])
  }

  /** A run succeeds exactly when every field's validate succeeds. */
  lemma {:induction false} RunAcceptsIffAllValid(fields: Schema, input: map<string, string>, env: Env)
    ensures Run(fields, input, env).Accepted? <==>
      forall i :: 0 <= i < |fields| ==> Validate(fields[i].1, fields[i].0, input, env).Ok?
    decreases |fields|
  {
    if fields != [] {
      var init := fields[..|fields| - 1];
      RunAcceptsIffAllValid(init, input, env);
      assert forall i :: 0 <= i < |init| ==> init[i] == fields[i];
    }
  }

  /** The declared names. */
  function Names(fields: Schema): (names: set<string>)
    ensures forall i :: 0 <= i < |fields| ==> fields[i].0 in names
    ensures forall x :: x in names ==> exists i :: 0 <= i < |fields| && fields[i].0 == x
  {
    if fields == [] then {}
    else Names(fields[..|fields| - 1]) + {fields[|fields| - 1].0}
  }

  /** One step of a successful run: the shorter run succeeded too, the last
      field succeeded, and its value was added under its name. */
  lemma AcceptedStep(fields: Schema, input: map<string, string>, env: Env)
    requires fields != [] && Run(fields, input, env).Accepted?
    ensures var init, (k, f) := fields[..|fields| - 1], fields[|fields| - 1];
      Run(init, input, env).Accepted? && Validate(f, k, input, env).Ok? &&
      Run(fields, input, env).data == Run(init, input, env).data[k := Validate(f, k, input, env).value]
  {
  }

  /** On success the data maps every declared name to the value its field
      yielded, and holds nothing else. */
  lemma AcceptedData(fields: Schema, input: map<string, string>, env: Env)
    requires DistinctNames(fields)
    requires Run(fields, input, env).Accepted?
    ensures Run(fields, input, env).data.Keys == Names(fields)
    ensures forall i :: 0 <= i < |fields| ==>
      Validate(fields[i].1, fields[i].0, input, env) == Ok(Run(fields, input, env).data[fields[i].0])
  {
    AcceptedKeys(fields, input, env);
    AcceptedValues(fields, input, env);
  }

  lemma {:induction false} AcceptedKeys(fields: Schema, input: map<string, string>, env: Env)
    requires Run(fields, input, env).Accepted?
    ensures Run(fields, input, env).data.Keys == Names(fields)
    decreases |fields|
  {
    if fields != [] {
      var init := fields[..|fields| - 1];
      AcceptedStep(fields, input, env);
      AcceptedKeys(init, input, env);
      assert Names(fields) == Names(init) + {fields[|fields| - 1].0};
    }
  }

  lemma {:induction false} AcceptedValues(fields: Schema, input: map<string, string>, env: Env)
    requires DistinctNames(fields)
    requires Run(fields, input, env).Accepted?
    ensures forall i :: 0 <= i < |fields| ==> (fields[i].0 in Run(fields, input, env).data &&
      Validate(fields[i].1, fields[i].0, input, env) == Ok(Run(fields, input, env).data[fields[i].0]))
    decreases |fields|
  {
    if fields != [] {
      var init := fields[..|fields| - 1];
      var (k, f) := fields[|fields| - 1];
      assert DistinctNames(init);
      AcceptedStep(fields, input, env);
      AcceptedValues(init, input, env);
      var before := Run(init, input, env).data;
      var d := Run(fields, input, env).data;
      forall i | 0 <= i < |init|
        ensures fields[i].0 in d && Validate(fields[i].1, fields[i].0, input, env) == Ok(d[fields[i].0])
      {
        assert init[i] == fields[i];
        assert fields[i].0 != k;
      }
    }
  }

  /** Once a run has failed, nothing appended after the failing field
      changes it: later fields are never validated. */
  lemma {:induction false} RejectedIsFinal(fields: Schema, more: Schema, input: map<string, string>, env: Env)
    requires Run(fields, input, env).Rejected?
    ensures Run(fields + more, input, env) == Run(fields, input, env)
    decreases |more|
  {
    if more == [] {
      assert fields + more == fields;
    } else {
      var init := more[..|more| - 1];
      assert (fields + more)[..|fields + more| - 1] == fields + init;
      RejectedIsFinal(fields, init, input, env);
    }
  }

  /** Fail-fast: when field i is the first to fail, the run reports that
      field's message, with the data of the fields before it. */
  lemma FirstFailureWins(fields: Schema, i: nat, input: map<string, string>, env: Env)
    requires i < |fields|
    requires Validate(fields[i].1, fields[i].0, input, env).Err?
    requires forall j :: 0 <= j < i ==> Validate(fields[j].1, fields[j].0, input, env).Ok?
    ensures Run(fields[..i], input, env).Accepted?
    ensures Run(fields, input, env) ==
      Rejected(Validate(fields[i].1, fields[i].0, input, env).message, Run(fields[..i], input, env).data)
  {
    RunAcceptsIffAllValid(fields[..i], input, env);
    assert fields[..i + 1][..i] == fields[..i];
    RejectedIsFinal(fields[..i + 1], fields[i + 1..], input, env);
    assert fields[..i + 1] + fields[i + 1..] == fields;
  }

  /** Field i is the first field whose validate fails. */
  predicate FailsFirstAt(fields: Schema, i: nat, input: map<string, string>, env: Env)
    requires i < |fields|
  {
    Validate(fields[i].1, fields[i].0, input, env).Err? &&
    forall j :: 0 <= j < i ==> Validate(fields[j].1, fields[j].0, input, env).Ok?
  }

  /** A run of the fields before a failing one that succeeded: that field is
      the first to fail, and the data holds exactly the names before it. */
  lemma StoppedAt(fields: Schema, i: nat, input: map<string, string>, env: Env)
    requires DistinctNames(fields) && i < |fields|
    requires Run(fields[..i], input, env).Accepted?
    requires Validate(fields[i].1, fields[i].0, input, env).Err?
    ensures FailsFirstAt(fields, i, input, env)
    ensures Run(fields[..i], input, env).data.Keys == Names(fields[..i])
  {
    var init := fields[..i];
    RunAcceptsIffAllValid(init, input, env);
    assert forall j :: 0 <= j < i ==> init[j] == fields[j];
    assert DistinctNames(init);
    AcceptedData(init, input, env);
  }

  /** A missing required parameter fails the run with its message unless an
      earlier field fails first. */
  lemma MissingRequiredFails(fields: Schema, i: nat, input: map<string, string>, env: Env)
    requires i < |fields| && fields[i].1.required && fields[i].0 !in input
    requires forall j :: 0 <= j < i ==> Validate(fields[j].1, fields[j].0, input, env).Ok?
    ensures Run(fields, input, env).Rejected?
    ensures Run(fields, input, env).error == RequiredMessage(fields[i].0)
  {
    FirstFailureWins(fields, i, input, env);
  }

  /** The validator object. `fields` is the `__data__` snapshot; `error` and
      `data` are the results of the latest `is_valid`. */
  class Serializer {
    const fields: Schema
    var error: string
    var data: map<string, Value>

    /** The schema never names a field twice. */
    predicate Valid()
    {
      DistinctNames(fields)
    }

    /** `__init__`: collects the public class attributes, in declaration order.
        The class dictionary cannot hold a name twice. */
    constructor (attrs: Schema)
      requires DistinctNames(attrs)
      ensures fields == PublicFields(attrs)
      ensures Valid()
      ensures forall i :: 0 <= i < |fields| ==> IsPublic(fields[i].0)
      ensures error == "" && data == map[]
    {
      var collected: Schema := [];
      var i := 0;
      while i < |attrs|
        invariant 0 <= i <= |attrs|
        invariant collected == PublicFields(attrs[..i])
      {
        assert attrs[..i + 1][..i] == attrs[..i];
        if IsPublic(attrs[i].0) {
          collected := collected + [attrs[i]];
        }
        i := i + 1;
      }
      assert attrs[..i] == attrs;
      PublicFieldsDistinct(attrs);
      forall j | 0 <= j < |collected| ensures IsPublic(collected[j].0) {
        PublicFieldsKeep(attrs, collected[j]);
      }
      fields := collected;
      error := "";
      data := map[];
    }

    /** The state `is_valid` leaves, read as a Verdict. */
    function AsVerdict(ok: bool): Verdict
      reads this
    {
      if ok then Accepted(data) else Rejected(error, data)
    }

    /** `is_valid`: resets `error` and `data`, validates the fields in order,
        and returns at the first failure with its message in `error`. The new
        state depends only on the schema and the input, never on an earlier
        call, so calling it twice with the same input leaves the same state. */
    method IsValid(input: map<string, string>, env: Env) returns (ok: bool)
      requires Valid()
      modifies this
      ensures AsVerdict(ok) == Run(fields, input, env)
      ensures ok <==> forall i :: 0 <= i < |fields| ==> Validate(fields[i].1, fields[i].0, input, env).Ok?
      ensures ok ==> error == "" && data.Keys == Names(fields)
      ensures !ok ==> error != ""
      ensures ok ==> forall i :: 0 <= i < |fields| ==>
        Validate(fields[i].1, fields[i].0, input, env) == Ok(data[fields[i].0])
      ensures !ok ==> exists i :: (0 <= i < |fields| && FailsFirstAt(fields, i, input, env) &&
                                   error == Validate(fields[i].1, fields[i].0, input, env).message &&
                                   data.Keys == Names(fields[..i]))
    {
      error := "";
      data := map[];
      var i := 0;
      while i < |fields|
        invariant 0 <= i <= |fields|
        invariant error == ""
        invariant Run(fields[..i], input, env) == Accepted(data)
      {
        var (k, f) := fields[i];
        assert fields[..i + 1][..i] == fields[..i];
        match Validate(f, k, input, env) {
          case Err(message) =>
            error := message;
            RejectedIsFinal(fields[..i + 1], fields[i + 1..], input, env);
            assert fields[..i + 1] + fields[i + 1..] == fields;
            RunAcceptsIffAllValid(fields, input, env);
            StoppedAt(fields, i, input, env);
            return false;
          case Ok(v) =>
            data := data[k := v];
        }
        i := i + 1;
      }
      assert fields[..i] == fields;
      RunAcceptsIffAllValid(fields, input, env);
      AcceptedData(fields, input, env);
      return true;
    }
  }
}
