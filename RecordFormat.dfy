/** The one-record-per-line text format of the data file: a patient is the
    line `Name,LastName,CI,BloodGroup`, and a line is read back by splitting
    it on `,` and keeping parts 0 to 3. Commas inside a field are not
    escaped. */
module RecordFormat {
  import opened Patients

  /** The store's failures: `ValidationException`, `NotFoundException`,
      `EmptyPatientListException`, and the index error a line with fewer
      than four comma-separated parts raises while it is parsed. */
  datatype Error = Validation | NotFound | EmptyList | MalformedLine

  datatype Result<T> = Success(value: T) | Failure(error: Error)

  /** The parts joined with `,` between them; the inverse of Split. */
  function Join(parts: seq<string>): string
    requires |parts| >= 1
  {
    if |parts| == 1 then parts[0] else parts[0] + "," + Join(parts[1..])
  }

  /** .NET `line.Split(',')`: the pieces between commas, in order, empty
      pieces included, so there is always one more part than commas. */
  function Split(s: string): (parts: seq<string>)
    ensures |parts| >= 1
    ensures forall i :: 0 <= i < |parts| ==> ',' !in parts[i]
  {
    if |s| == 0 then [""]
    else
      var rest := Split(s[1..]);
      if s[0] == ',' then [""] + rest
      else [[s[0]] + rest[0]] + rest[1..]
  }

  /** The four fields the store writes, as they appear in a line. */
  function Fields(p: Patient): seq<string> {
    [Text(p.Name), Text(p.LastName), Text(p.CI), Text(p.BloodGroup)]
  }

  /** Every one of the four stored fields is a non-null string without a
      comma: the fields of such a patient survive a write and a read. */
  predicate CommaFree(p: Patient) {
    && p.Name.Str? && p.LastName.Str? && p.CI.Str? && p.BloodGroup.Str?
    && ',' !in Text(p.Name) && ',' !in Text(p.LastName)
    && ',' !in Text(p.CI) && ',' !in Text(p.BloodGroup)
  }

  /** A patient as the parser builds it: comma-free fields and no Code. */
  predicate IsParsed(p: Patient) {
    CommaFree(p) && p.Code == Null
  }

  /** The line written for a patient, `$"{Name},{LastName},{CI},{BloodGroup}"`.
      `Code` is not part of it. */
  function Serialize(p: Patient): (line: string)
    ensures |line| == |Text(p.Name)| + |Text(p.LastName)| + |Text(p.CI)| + |Text(p.BloodGroup)| + 3
  {
    Text(p.Name) + "," + Text(p.LastName) + "," + Text(p.CI) + "," + Text(p.BloodGroup)
  }

  /** One line read back into a patient: split on `,`, parts 0 to 3 become
      Name, LastName, CI and BloodGroup, any further parts are ignored, and
      a line with fewer than four parts is a failure. */
  function ParseLine(line: string): (r: Result<Patient>)
    ensures r.Success? <==> |Split(line)| >= 4
    ensures r.Failure? ==> r.error == MalformedLine
    ensures r.Success? ==> IsParsed(r.value) && Fields(r.value) == Split(line)[..4]
  {
    var parts := Split(line);
    if |parts| < 4 then Failure(MalformedLine)
    else Success(Patient(Str(parts[0]), Str(parts[1]), Str(parts[2]), Str(parts[3]), Null))
  }

  /** Every line read back, in line order; fails when any line is malformed. */
  function ParseAll(lines: seq<string>): (r: Result<seq<Patient>>)
    ensures r.Success? <==> forall i :: 0 <= i < |lines| ==> ParseLine(lines[i]).Success?
    ensures r.Failure? ==> r.error == MalformedLine
    ensures r.Success? ==>
      && |r.value| == |lines|
      && forall i :: 0 <= i < |lines| ==> ParseLine(lines[i]) == Success(r.value[i])
  {
    if lines == [] then Success([])
    else
      match ParseLine(lines[0])
      case Failure(e) => Failure(e)
      case Success(p) =>
        match ParseAll(lines[1..])
        case Failure(e) => Failure(e)
        case Success(ps) => Success([p] + ps)
  }

  /** The lines the store writes back for a list of patients, one per patient. */
  function SerializeAll(ps: seq<Patient>): (lines: seq<string>)
    ensures |lines| == |ps|
    ensures forall i :: 0 <= i < |ps| ==> lines[i] == Serialize(ps[i])
    ensures forall i :: 0 <= i < |ps| ==> ParseLine(lines[i]).Success?
  {
    var lines := seq(|ps|, i requires 0 <= i < |ps| => Serialize(ps[i]));
    assert forall i :: 0 <= i < |ps| ==> ParseLine(lines[i]).Success? by {
      forall i | 0 <= i < |ps| ensures ParseLine(lines[i]).Success? {
        SerializedLineParses(ps[i]);
      }
    }
    lines
  }

  /** Splitting a piece without commas gives the piece itself. */
  lemma {:induction false} SplitNoComma(s: string)
    requires ',' !in s
    ensures Split(s) == [s]
  {
    if |s| > 0 {
      assert ',' !in s[1..] by {
        forall i | 0 <= i < |s[1..]| ensures s[1..][i] != ',' {
          assert s[1..][i] == s[i + 1];
        }
      }
      SplitNoComma(s[1..]);
      assert [s[0]] + s[1..] == s;
    }
  }

  /** A comma splits a line into the parts before it and the parts after it. */
  lemma {:induction false} SplitConcat(a: string, b: string)
    ensures Split(a + "," + b) == Split(a) + Split(b)
  {
    if |a| == 0 {
      assert a + "," + b == "," + b;
      assert ("," + b)[1..] == b;
    } else {
      assert (a + "," + b)[0] == a[0];
      assert (a + "," + b)[1..] == a[1..] + "," + b;
      SplitConcat(a[1..], b);
    }
  }

  /** Join undoes Split: the parts with commas between them are the line. */
  lemma {:induction false} JoinSplit(s: string)
    ensures Join(Split(s)) == s
  {
    if |s| > 0 {
      var rest := Split(s[1..]);
      JoinSplit(s[1..]);
      if s[0] == ',' {
        assert ([""] + rest)[1..] == rest;
      } else {
        var parts := [[s[0]] + rest[0]] + rest[1..];
        assert |rest| > 1 ==> parts[1..] == rest[1..];
      }
      assert s == [s[0]] + s[1..];
    }
  }

  /** Split undoes Join when no part holds a comma. */
  lemma {:induction false} SplitJoin(parts: seq<string>)
    requires |parts| >= 1
    requires forall i :: 0 <= i < |parts| ==> ',' !in parts[i]
    ensures Split(Join(parts)) == parts
  {
    SplitNoComma(parts[0]);
    if |parts| > 1 {
      SplitJoin(parts[1..]);
      SplitConcat(parts[0], Join(parts[1..]));
      assert [parts[0]] + parts[1..] == parts;
    }
  }

  /** A written line splits into the splits of its four fields, so it has
      at least four parts whatever the fields hold. */
  lemma SerializeSplit(p: Patient)
    ensures Split(Serialize(p)) ==
      Split(Text(p.Name)) + Split(Text(p.LastName)) + Split(Text(p.CI)) + Split(Text(p.BloodGroup))
    ensures |Split(Serialize(p))| >= 4
  {
    var n, l, c, b := Text(p.Name), Text(p.LastName), Text(p.CI), Text(p.BloodGroup);
    var cb := c + "," + b;
    var lcb := l + "," + cb;
    assert Serialize(p) == n + "," + lcb;
    var sn, sl, sc, sb := Split(n), Split(l), Split(c), Split(b);
    assert Split(cb) == sc + sb by { SplitConcat(c, b); }
    assert Split(lcb) == sl + (sc + sb) by { SplitConcat(l, cb); }
    assert Split(n + "," + lcb) == sn + (sl + (sc + sb)) by { SplitConcat(n, lcb); }
    assert sn + (sl + (sc + sb)) == sn + sl + sc + sb;
  }

  /** The written line is the four fields joined with commas. */
  lemma SerializeIsJoin(p: Patient)
    ensures Serialize(p) == Join(Fields(p))
  {
    var f := Fields(p);
    assert f[1..][1..][1..] == [f[3]];
    assert Join(f[2..]) == f[2] + "," + f[3];
    assert Join(f[1..]) == f[1] + "," + (f[2] + "," + f[3]);
  }

  /** Every line the store writes can be read back. */
  lemma SerializedLineParses(p: Patient)
    ensures ParseLine(Serialize(p)).Success?
  {
    SerializeSplit(p);
  }

  /** Round trip: a patient whose fields hold no comma is read back with the
      same Name, LastName, CI and BloodGroup, and with no Code. */
  lemma RoundTrip(p: Patient)
    requires CommaFree(p)
    ensures ParseLine(Serialize(p)) == Success(p.(Code := Null))
    ensures |Split(Serialize(p))| == 4
  {
    SerializeSplit(p);
    SplitNoComma(Text(p.Name));
    SplitNoComma(Text(p.LastName));
    SplitNoComma(Text(p.CI));
    SplitNoComma(Text(p.BloodGroup));
  }

  /** A parsed line written back has exactly four fields: the first four
      parts of the original line, any further parts dropped; reading it
      again gives the same record. */
  lemma Reserialize(line: string)
    requires ParseLine(line).Success?
    ensures Split(Serialize(ParseLine(line).value)) == Split(line)[..4]
    ensures ParseLine(Serialize(ParseLine(line).value)) == ParseLine(line)
  {
    var p := ParseLine(line).value;
    RoundTrip(p);
    SerializeSplit(p);
    SplitNoComma(Text(p.Name));
    SplitNoComma(Text(p.LastName));
    SplitNoComma(Text(p.CI));
    SplitNoComma(Text(p.BloodGroup));
    assert Split(Serialize(p)) == Fields(p);
  }

  /** Writing parsed patients and reading the file back gives the same
      patients in the same order, each line with exactly four parts. */
  lemma ParseSerializeAll(ps: seq<Patient>)
    requires forall i :: 0 <= i < |ps| ==> IsParsed(ps[i])
    ensures forall i :: 0 <= i < |ps| ==> |Split(SerializeAll(ps)[i])| == 4
    ensures ParseAll(SerializeAll(ps)) == Success(ps)
  {
    var lines := SerializeAll(ps);
    forall i | 0 <= i < |ps|
      ensures |Split(lines[i])| == 4 && ParseLine(lines[i]) == Success(ps[i])
    {
      RoundTrip(ps[i]);
      assert ps[i].(Code := Null) == ps[i];
    }
    SameParses(lines, ps);
  }

  /** ParseAll succeeds with exactly the patients each line parses to. */
  lemma {:induction false} SameParses(lines: seq<string>, ps: seq<Patient>)
    requires |lines| == |ps|
    requires forall i :: 0 <= i < |lines| ==> ParseLine(lines[i]) == Success(ps[i])
    ensures ParseAll(lines) == Success(ps)
  {
    if lines != [] {
      SameParses(lines[1..], ps[1..]);
      assert ps == [ps[0]] + ps[1..];
    }
  }

  /** Appending a line to a readable file appends its record to the list
      read back, keeping the earlier records and their order. */
  lemma ParseAllAppend(lines: seq<string>, line: string)
    requires ParseAll(lines).Success?
    requires ParseLine(line).Success?
    ensures ParseAll(lines + [line]) == Success(ParseAll(lines).value + [ParseLine(line).value])
  {
    var ps := ParseAll(lines).value + [ParseLine(line).value];
    var all := lines + [line];
    forall i | 0 <= i < |all| ensures ParseLine(all[i]) == Success(ps[i]) {
      if i < |lines| {
        assert all[i] == lines[i];
      }
    }
    SameParses(all, ps);
  }
}
