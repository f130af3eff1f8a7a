# PatientService record store, modelled in Dafny

This project models the record store of the clinic service: the
`PatientService` class of `PatientManager`. The store keeps patients in one
text file, one record per line, as `Name,LastName,CI,BloodGroup`. It appends
a line on create, reads the whole file on every query, and rewrites the whole
file on update and delete. CI is the national identity number that records
are looked up by.

The model has three modules:

- `Patients` (`Patient.dfy`) holds the `Patient` record with its five
  fields. A .NET string may be null, so each field is a `NullableString`.
  The module also defines `char.IsWhiteSpace`, `string.IsNullOrWhiteSpace`,
  and the text a field contributes to an interpolated string (null gives
  `""`).
- `RecordFormat` (`RecordFormat.dfy`) holds the line format:
  - `Split` is .NET `Split(',')`, and `Join` is its inverse.
  - `Serialize` writes the line for one patient.
  - `ParseLine` and `ParseAll` read lines back:
    split on `,`, keep parts 0 to 3.
  - The error kinds of the store, and lemmas about round trips.
- `PatientStore` (`PatientService.dfy`) holds the store itself:
  - the lookup `FindFirst` (`FirstOrDefault`) and the filter `WithoutCI`
    (`Where`);
  - class `PatientService`, whose field `lines: seq<string>` is the data
    file;
  - lemmas about what create, update and delete do to the file.

The store's exceptions become an `Error` value: `Validation`, `NotFound`,
`EmptyList`, and a fourth one, `MalformedLine`. The source raises an
index-out-of-range error when a line has fewer than four comma-separated
parts, and `MalformedLine` stands for that error. The model adds no recovery
from it.

Two behaviours of the code are easy to miss, and the model keeps both:

- On an empty file, get, update and delete all fail with `EmptyList`, not
  `NotFound`. All three call `GetAllPatients` first, and it throws on zero
  lines (`PatientManager/PatientService.cs:38-41`).
- Delete removes every record with the given CI, not just one. `Where` is a
  filter (`PatientManager/PatientService.cs:80`).

## Model

| member | source | states |
|---|---|---|
| `Patients.IsWhiteSpace` | PatientManager/PatientService.cs:28 | .NET `char.IsWhiteSpace`: true exactly for the 25 characters .NET lists as white space |
| `Patients.IsNullOrWhiteSpace` | PatientManager/PatientService.cs:28 | .NET `string.IsNullOrWhiteSpace`: null and the empty string are blank; a non-blank string is non-null, non-empty and holds a character that is not white space, and the converse holds too |
| `Patients.Text` | PatientManager/PatientService.cs:31 | what a field contributes to `$"{...}"`: a non-null string contributes itself; the text is empty exactly for null and for the empty string |
| `PatientStore.MissingRequiredField` | PatientManager/PatientService.cs:28-29 | the create-time validator: a null or empty Name, LastName, CI or BloodGroup makes it reject; a patient it accepts has four non-empty fields |
| `RecordFormat.Serialize` | PatientManager/PatientService.cs:31 | the line for a patient has the lengths of its four fields plus three separators; Code contributes nothing |
| `RecordFormat.SerializeIsJoin` | PatientManager/PatientService.cs:31 | the written line is Name, LastName, CI and BloodGroup joined with commas, in that order |
| `RecordFormat.SerializeAll` | PatientManager/PatientService.cs:70 | the rewrite after update or delete (also line 81): one line per record, in order, each the record's serialised line, and every one of them reads back |
| `RecordFormat.Split` | PatientManager/PatientService.cs:43 | every line splits into at least one part, and no part contains a comma |
| `RecordFormat.JoinSplit` | PatientManager/PatientService.cs:43 | putting commas back between the parts of a split rebuilds the line |
| `RecordFormat.SplitJoin` | PatientManager/PatientService.cs:43 | splitting parts that were joined with commas gives those parts back when no part contains a comma, so `Split` and `Join` are inverses |
| `RecordFormat.SplitNoComma` | PatientManager/PatientService.cs:43 | a piece without a comma splits into just itself |
| `RecordFormat.SplitConcat` | PatientManager/PatientService.cs:43 | splitting `a,b` gives the parts of `a` followed by the parts of `b` |
| `RecordFormat.SerializeSplit` | PatientManager/PatientService.cs:31 | the written line splits into the splits of Name, LastName, CI and BloodGroup in that order, so it has at least four parts; Code is not written |
| `RecordFormat.ParseLine` | PatientManager/PatientService.cs:43-49 | a line parses exactly when it has at least four parts, and otherwise fails with `MalformedLine`; the record's four fields are parts 0 to 3, non-null and comma-free, and Code is null |
| `RecordFormat.ParseAll` | PatientManager/PatientService.cs:43-49 | all lines parse or the result is `MalformedLine`; on success there is one record per line, in line order, each the parse of its line |
| `RecordFormat.SerializedLineParses` | PatientManager/PatientService.cs:31-32 | the store can read back every line it appends, whatever the fields hold |
| `RecordFormat.RoundTrip` | PatientManager/PatientService.cs:31 | a patient with non-null, comma-free fields is read back with the same Name, LastName, CI and BloodGroup and a null Code, and its line has exactly four parts |
| `RecordFormat.Reserialize` | PatientManager/PatientService.cs:70 | writing a parsed record back gives a line of exactly four parts: the first four parts of the old line, with any extra parts dropped; reading it again gives the same record |
| `RecordFormat.SameParses` | PatientManager/PatientService.cs:43-49 | when each line parses to the matching record, reading the file gives exactly those records |
| `RecordFormat.ParseAllAppend` | PatientManager/PatientService.cs:32 | appending a readable line to a readable file keeps the earlier records and their order, and adds the new record last |
| `RecordFormat.ParseSerializeAll` | PatientManager/PatientService.cs:81 | writing parsed records and reading them back gives the same records in the same order, each line with exactly four parts |
| `PatientStore.FindFirst` | PatientManager/PatientService.cs:54 | finds nothing exactly when no record has the CI; otherwise returns the position of the first record that has it |
| `PatientStore.WithoutCI` | PatientManager/PatientService.cs:80 | keeps exactly the records whose CI differs, and shrinks the list by the number of records that have the CI |
| `PatientStore.WithoutCIConcat` | PatientManager/PatientService.cs:80 | filtering keeps relative order: filtering a concatenation is the concatenation of the filtered halves |
| `PatientStore.FoundIffCounted` | PatientManager/PatientService.cs:76-80 | a CI is found exactly when at least one record has it, so a delete that finds the CI removes at least one line |
| `PatientStore.FindFirstAppend` | PatientManager/PatientService.cs:54 | a record appended last is the first match for its CI when no earlier record has that CI |
| `PatientStore.CreateThenList` | PatientManager/PatientService.cs:31-49 | after an append, listing returns the earlier records unchanged and in order, plus the new record last, with the same four fields when none contains a comma |
| `PatientStore.CreateThenLookup` | PatientManager/PatientService.cs:31-58 | after creating a patient with a new CI and comma-free fields, looking up that CI finds the new record on the last line |
| `PatientStore.UpdateKeepsOthers` | PatientManager/PatientService.cs:63-70 | an update keeps the line count; every record it does not rename reads back the same and is now written as exactly the first four parts of its old line |
| `PatientStore.UpdateRenames` | PatientManager/PatientService.cs:68-70 | the renamed record is written as the new names followed by its old CI and BloodGroup; with non-null, comma-free names it reads back as the renamed record |
| `PatientStore.UpdateThenList` | PatientManager/PatientService.cs:64-70 | with non-null, comma-free new names, the rewritten file lists back as the old records with only the first match renamed, its CI and BloodGroup kept |
| `PatientStore.DeleteEffect` | PatientManager/PatientService.cs:75-81 | after a delete the file reads back as exactly the records with another CI, in their old order; each line has exactly four parts, and the line count drops by the number of matches |
| `PatientStore.PatientService.constructor` | PatientManager/PatientService.cs:12-24 | an existing data file is used as it is, and a missing one starts empty |
| `PatientStore.PatientService.CreatePatient` | PatientManager/PatientService.cs:26-33 | fails with `Validation` and leaves the file unchanged exactly when Name, LastName, CI or BloodGroup is null, empty or whitespace-only; otherwise appends exactly the one line `Name,LastName,CI,BloodGroup`, which has at least four parts |
| `PatientStore.PatientService.GetAllPatients` | PatientManager/PatientService.cs:35-50 | fails with `EmptyList` exactly when the file has no lines, and with `MalformedLine` when some line has fewer than four parts; otherwise returns one record per line, in order, each the parse of its line |
| `PatientStore.PatientService.GetPatientByCI` | PatientManager/PatientService.cs:52-59 | a listing failure passes through; `NotFound` exactly when no record has the CI; otherwise it succeeds, with the first record that has that CI |
| `PatientStore.PatientService.UpdatePatient` | PatientManager/PatientService.cs:61-71 | a listing failure passes through and an absent CI gives `NotFound`, both with the file unchanged; otherwise the file is rewritten from the records read, with only the first match renamed (names not validated); the line count is kept and every line has at least four parts; with non-null, comma-free new names the file lists back as the old records with only that one renamed |
| `PatientStore.PatientService.DeletePatient` | PatientManager/PatientService.cs:73-82 | a listing failure passes through and an absent CI gives `NotFound`, both with the file unchanged; otherwise the file is rewritten as the records whose CI differs, is strictly shorter, has exactly four parts on every line, and lists back exactly the kept records |

## Left out

- The file system: `File.Exists`, `File.Create`, `AppendAllLines`,
  `ReadAllLines` and `WriteAllLines` become reads and assignments of
  `lines`. Encoding and newline handling are not modelled. In particular, a
  field that contains a line break would split into several lines in the real
  file; in the model it stays on one line.
- Concurrency: the source does not guard the file against simultaneous
  writers, and the model is single-threaded.
- The HTTP layer in `ClinicAPI/Program.cs`: routing, logging, Swagger and
  the mapping of exceptions to status codes. It only re-maps the store's
  errors.
- `CreatePatient` with a null `patient`: `Patient` is a value here, so the
  `NullReferenceException` that line 28 of `PatientManager/PatientService.cs`
  would raise on a null argument cannot arise. The callers in
  `ClinicAPI/Program.cs` bind the argument from the request body.
- The exception messages: each error is modelled by its kind only.
- The `Code` value and the remote call that would assign it. The store never
  writes or reads `Code`, and parsed records carry a null `Code`. The
  model-binding and Swagger attributes on `Patient` are left out too.
- .NET strings are sequences of UTF-16 code units, while Dafny `char` is a
  Unicode scalar value. No whitespace character is a surrogate, so
  `IsWhiteSpace` is the same on both.
