/** The record store: a data file of patient lines that is appended to on
    create, read whole on every query, and rewritten whole on update and
    delete. */
module PatientStore {
  import opened Patients
  import opened RecordFormat

  datatype Option<T> = None | Some(value: T)

  /** The end of an operation that returns nothing: it went through, or it
      raised one of the store's exceptions. */
  datatype Outcome = Pass | Fail(error: Error)

  /** The create-time validation: one of the four stored fields is null,
      empty or whitespace only. */
  predicate MissingRequiredField(p: Patient): (b: bool)
    ensures Null in [p.Name, p.LastName, p.CI, p.BloodGroup] ==> b
    ensures Str("") in [p.Name, p.LastName, p.CI, p.BloodGroup] ==> b
    ensures !b ==> forall i :: 0 <= i < 4 ==> |Fields(p)[i]| > 0
  {
    || IsNullOrWhiteSpace(p.Name)
    || IsNullOrWhiteSpace(p.LastName)
    || IsNullOrWhiteSpace(p.CI)
    || IsNullOrWhiteSpace(p.BloodGroup)
  }

  /** `FirstOrDefault(p => p.CI == ci)`, as a position: the first patient
      whose CI is `ci`, or none. */
  function FindFirst(ps: seq<Patient>, ci: NullableString): (r: Option<nat>)
    ensures r.None? <==> forall i :: 0 <= i < |ps| ==> ps[i].CI != ci
    ensures r.Some? ==>
      && r.value < |ps|
      && ps[r.value].CI == ci
      && forall j :: 0 <= j < r.value ==> ps[j].CI != ci
  {
    if ps == [] then None
    else if ps[0].CI == ci then Some(0)
    else
      match FindFirst(ps[1..], ci)
      case None => None
      case Some(k) => Some(k + 1)
  }

  /** How many patients have CI `ci`. */
  function CountCI(ps: seq<Patient>, ci: NullableString): nat {
    if ps == [] then 0
    else (if ps[0].CI == ci then 1 else 0) + CountCI(ps[1..], ci)
  }

  /** `Where(p => p.CI != ci)`: every patient with CI `ci` dropped, the rest
      kept. */
  function WithoutCI(ps: seq<Patient>, ci: NullableString): (r: seq<Patient>)
    ensures |r| == |ps| - CountCI(ps, ci)
    ensures forall p :: p in r <==> p in ps && p.CI != ci
  {
    if ps == [] then []
    else (if ps[0].CI == ci then [] else [ps[0]]) + WithoutCI(ps[1..], ci)
  }

  /** The filter keeps order: filtering a concatenation filters each half. */
  lemma {:induction false} WithoutCIConcat(a: seq<Patient>, b: seq<Patient>, ci: NullableString)
    ensures WithoutCI(a + b, ci) == WithoutCI(a, ci) + WithoutCI(b, ci)
  {
    if a == [] {
      assert a + b == b;
    } else {
      assert (a + b)[0] == a[0];
      assert (a + b)[1..] == a[1..] + b;
      WithoutCIConcat(a[1..], b, ci);
    }
  }

  /** A CI is found exactly when at least one patient has it. */
  lemma {:induction false} FoundIffCounted(ps: seq<Patient>, ci: NullableString)
    ensures FindFirst(ps, ci).Some? <==> CountCI(ps, ci) >= 1
  {
    if ps != [] {
      FoundIffCounted(ps[1..], ci);
    }
  }

  /** A patient appended after the others is the first with its CI when no
      earlier patient has that CI. */
  lemma {:induction false} FindFirstAppend(ps: seq<Patient>, q: Patient)
    requires FindFirst(ps, q.CI).None?
    ensures FindFirst(ps + [q], q.CI) == Some(|ps|)
  {
    var all := ps + [q];
    assert all[|ps|] == q;
    assert forall j :: 0 <= j < |ps| ==> all[j] == ps[j];
  }

  /** Creating a patient and listing the file again: the earlier records come
      back unchanged and in order, and the new one last, with the same four
      fields when none holds a comma. */
  lemma CreateThenList(lines: seq<string>, p: Patient)
    requires ParseAll(lines).Success?
    ensures ParseAll(lines + [Serialize(p)]).Success?
    ensures var ps := ParseAll(lines + [Serialize(p)]).value;
      && |ps| == |lines| + 1
      && ps[..|lines|] == ParseAll(lines).value
      && (CommaFree(p) ==> ps[|lines|] == p.(Code := Null))
  {
    SerializedLineParses(p);
    ParseAllAppend(lines, Serialize(p));
    if CommaFree(p) {
      RoundTrip(p);
    }
    var ps := ParseAll(lines + [Serialize(p)]).value;
    assert ps == ParseAll(lines).value + [ParseLine(Serialize(p)).value];
    assert ps[..|lines|] == ParseAll(lines).value;
  }

  /** Creating a patient whose CI no record has yet, then looking that CI
      up, finds the new record, the last line of the file. */
  lemma CreateThenLookup(lines: seq<string>, p: Patient)
    requires ParseAll(lines).Success?
    requires CommaFree(p)
    requires FindFirst(ParseAll(lines).value, p.CI).None?
    ensures ParseAll(lines + [Serialize(p)]).Success?
    ensures var ps := ParseAll(lines + [Serialize(p)]).value;
      FindFirst(ps, p.CI) == Some(|lines|) && ps[|lines|] == p.(Code := Null)
  {
    var before := ParseAll(lines).value;
    var q := p.(Code := Null);
    assert q.CI == p.CI;
    assert ParseAll(lines + [Serialize(p)]) == Success(before + [q]) by {
      RoundTrip(p);
      ParseAllAppend(lines, Serialize(p));
    }
    FindFirstAppend(before, q);
  }

  /** An update rewrites every record it does not rename from its parsed
      form: the line now holds exactly the first four fields of the old
      line, and reads back as the same record. */
  lemma UpdateKeepsOthers(before: seq<string>, ps: seq<Patient>, k: nat, renamed: Patient)
    requires ParseAll(before) == Success(ps)
    requires k < |ps|
    ensures var after := SerializeAll(ps[k := renamed]);
      && |after| == |before|
      && forall j :: 0 <= j < |after| && j != k ==>
           && Split(after[j]) == Split(before[j])[..4]
           && ParseLine(after[j]) == ParseLine(before[j])
  {
    var after := SerializeAll(ps[k := renamed]);
    forall j | 0 <= j < |after| && j != k
      ensures Split(after[j]) == Split(before[j])[..4]
      ensures ParseLine(after[j]) == ParseLine(before[j])
    {
      assert after[j] == Serialize(ParseLine(before[j]).value);
      Reserialize(before[j]);
    }
  }

  /** The renamed record is written with the new names in front of its old
      CI and BloodGroup, and reads back as the renamed record when the new
      names are non-null and hold no comma. */
  lemma UpdateRenames(line: string, newName: NullableString, newLastName: NullableString)
    requires ParseLine(line).Success?
    ensures var renamed := ParseLine(line).value.(Name := newName, LastName := newLastName);
      && Split(Serialize(renamed)) == Split(Text(newName)) + Split(Text(newLastName)) + Split(line)[2..4]
      && (CommaFree(renamed) ==> ParseLine(Serialize(renamed)) == Success(renamed))
  {
    var p := ParseLine(line).value;
    var renamed := p.(Name := newName, LastName := newLastName);
    SerializeSplit(renamed);
    SplitNoComma(Text(p.CI));
    SplitNoComma(Text(p.BloodGroup));
    assert Fields(p) == Split(line)[..4];
    assert Split(line)[2..4] == [Text(p.CI), Text(p.BloodGroup)];
    if CommaFree(renamed) {
      RoundTrip(renamed);
      assert renamed.(Code := Null) == renamed;
    }
  }

  /** What an update reads back as: when the new names are non-null and
      hold no comma, listing the rewritten file gives the old records with
      only record `k` renamed, its CI and BloodGroup kept. */
  lemma UpdateThenList(before: seq<string>, ps: seq<Patient>, k: nat,
                       newName: NullableString, newLastName: NullableString)
    requires ParseAll(before) == Success(ps)
    requires k < |ps|
    requires CommaFree(ps[k].(Name := newName, LastName := newLastName))
    ensures var updated := ps[k := ps[k].(Name := newName, LastName := newLastName)];
      ParseAll(SerializeAll(updated)) == Success(updated)
  {
    var updated := ps[k := ps[k].(Name := newName, LastName := newLastName)];
    forall i | 0 <= i < |updated| ensures IsParsed(updated[i]) {
      assert ParseLine(before[i]) == Success(ps[i]);
    }
    ParseSerializeAll(updated);
  }

  /** The lines a delete writes back: exactly the records whose CI is not
      `ci`, in their old order, each line with exactly four fields; the file
      shrinks by the number of records that had that CI. */
  lemma DeleteEffect(before: seq<string>, ps: seq<Patient>, ci: NullableString)
    requires ParseAll(before) == Success(ps)
    ensures var after := SerializeAll(WithoutCI(ps, ci));
      && ParseAll(after) == Success(WithoutCI(ps, ci))
      && |after| == |before| - CountCI(ps, ci)
      && forall j :: 0 <= j < |after| ==> |Split(after[j])| == 4
  {
    var kept := WithoutCI(ps, ci);
    forall i | 0 <= i < |kept| ensures IsParsed(kept[i]) {
      assert kept[i] in ps;
      var j :| 0 <= j < |ps| && ps[j] == kept[i];
      assert ParseLine(before[j]) == Success(ps[j]);
    }
    ParseSerializeAll(kept);
  }

  /** The store over one data file, held as its sequence of lines. */
  class PatientService {
    /** The data file, one string per line. */
    var lines: seq<string>

    /** Opens the data file: one that exists is used as it is, a missing one
        is created empty. `existing` is the file's content, or None when it
        does not exist. */
    constructor (existing: Option<seq<string>>)
      ensures lines == (if existing.Some? then existing.value else [])
    {
      lines := if existing.Some? then existing.value else [];
    }

    /** Validates the four stored fields and appends the patient's line. */
    method CreatePatient(patient: Patient) returns (r: Outcome)
      modifies this
      ensures r == (if MissingRequiredField(patient) then Fail(Validation) else Pass)
      ensures r.Fail? ==> lines == old(lines)
      ensures r.Pass? ==> lines == old(lines) + [Serialize(patient)]
      ensures r.Pass? ==> |Split(lines[|lines| - 1])| >= 4
    {
      if MissingRequiredField(patient) {
        return Fail(Validation);
      }
      var record := Serialize(patient);
      SerializeSplit(patient);
      lines := lines + [record];
      r := Pass;
    }

    /** Reads every record, in line order. An empty file is the empty-list
        failure; a line with fewer than four parts is a malformed-line
        failure. */
    function GetAllPatients(): (r: Result<seq<Patient>>)
      reads this
      ensures r == Failure(EmptyList) <==> |lines| == 0
      ensures r.Success? <==>
        |lines| > 0 && forall i :: 0 <= i < |lines| ==> ParseLine(lines[i]).Success?
      ensures r.Failure? && |lines| > 0 ==> r.error == MalformedLine
      ensures r.Success? ==>
        && |r.value| == |lines|
        && forall i :: 0 <= i < |lines| ==> ParseLine(lines[i]) == Success(r.value[i])
    {
      if |lines| == 0 then Failure(EmptyList) else ParseAll(lines)
    }

    /** The first record whose CI is `ci`; the failures of GetAllPatients
        pass through, and no such record is the not-found failure. */
    function GetPatientByCI(ci: NullableString): (r: Result<Patient>)
      reads this
      ensures GetAllPatients().Failure? ==> r == Failure(GetAllPatients().error)
      ensures GetAllPatients().Success? ==>
        var ps := GetAllPatients().value;
        && (r == Failure(NotFound) <==> forall i :: 0 <= i < |ps| ==> ps[i].CI != ci)
        && (r.Success? || r == Failure(NotFound))
        && (r.Success? ==>
              exists k :: 0 <= k < |ps| && ps[k] == r.value && r.value.CI == ci
                && forall j :: 0 <= j < k ==> ps[j].CI != ci)
    {
      match GetAllPatients()
      case Failure(e) => Failure(e)
      case Success(ps) =>
        match FindFirst(ps, ci)
        case None => Failure(NotFound)
        case Some(k) => Success(ps[k])
    }

    /** Gives the first record with CI `ci` the new names, unvalidated, and
        rewrites the whole file from the records read. */
    method UpdatePatient(ci: NullableString, newName: NullableString, newLastName: NullableString)
      returns (r: Outcome)
      modifies this
      ensures old(GetAllPatients()).Failure? ==>
        r == Fail(old(GetAllPatients()).error) && lines == old(lines)
      ensures old(GetAllPatients()).Success? && FindFirst(old(GetAllPatients()).value, ci).None? ==>
        r == Fail(NotFound) && lines == old(lines)
      ensures old(GetAllPatients()).Success? && FindFirst(old(GetAllPatients()).value, ci).Some? ==>
        var ps := old(GetAllPatients()).value;
        var k := FindFirst(ps, ci).value;
        && r == Pass
        && lines == SerializeAll(ps[k := ps[k].(Name := newName, LastName := newLastName)])
      ensures r.Pass? ==> |lines| == |old(lines)|
      ensures r.Pass? ==> forall j :: 0 <= j < |lines| ==> |Split(lines[j])| >= 4
      ensures (&& old(GetAllPatients()).Success? && FindFirst(old(GetAllPatients()).value, ci).Some?
               && newName.Str? && newLastName.Str? && ',' !in newName.value && ',' !in newLastName.value) ==>
        var ps := old(GetAllPatients()).value;
        var k := FindFirst(ps, ci).value;
        GetAllPatients() == Success(ps[k := ps[k].(Name := newName, LastName := newLastName)])
    {
      var all := GetAllPatients();
      if all.Failure? {
        return Fail(all.error);
      }
      var patients := all.value;
      var found := FindFirst(patients, ci);
      if found.None? {
        return Fail(NotFound);
      }
      var k := found.value;
      if newName.Str? && newLastName.Str? && ',' !in newName.value && ',' !in newLastName.value {
        UpdateThenList(lines, patients, k, newName, newLastName);
      }
      UpdateKeepsOthers(lines, patients, k, patients[k].(Name := newName, LastName := newLastName));
      patients := patients[k := patients[k].(Name := newName, LastName := newLastName)];
      SerializedLineParses(patients[k]);
      lines := SerializeAll(patients);
      r := Pass;
    }

    /** Removes every record with CI `ci`, failing with not-found when there
        is none, and rewrites the whole file from the records kept. */
    method DeletePatient(ci: NullableString) returns (r: Outcome)
      modifies this
      ensures old(GetAllPatients()).Failure? ==>
        r == Fail(old(GetAllPatients()).error) && lines == old(lines)
      ensures old(GetAllPatients()).Success? && FindFirst(old(GetAllPatients()).value, ci).None? ==>
        r == Fail(NotFound) && lines == old(lines)
      ensures old(GetAllPatients()).Success? && FindFirst(old(GetAllPatients()).value, ci).Some? ==>
        var ps := old(GetAllPatients()).value;
        && r == Pass
        && lines == SerializeAll(WithoutCI(ps, ci))
        && |lines| < |old(lines)|
        && (forall j :: 0 <= j < |lines| ==> |Split(lines[j])| == 4)
        && (|lines| > 0 ==> GetAllPatients() == Success(WithoutCI(ps, ci)))
    {
      var all := GetAllPatients();
      if all.Failure? {
        return Fail(all.error);
      }
      var patients := all.value;
      var found := FindFirst(patients, ci);
      if found.None? {
        return Fail(NotFound);
      }
      DeleteEffect(lines, patients, ci);
      FoundIffCounted(patients, ci);
      var updated := WithoutCI(patients, ci);
      lines := SerializeAll(updated);
      r := Pass;
    }
  }
}
