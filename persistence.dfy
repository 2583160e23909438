/** The startup restore decision of App.tsx: the saved state is trusted only when it
    is present, carries the running version tag and has the expected shape. */
module Persistence {
  import opened Types
  import opened Constants

  /** APP_VERSION, the tag written beside the saved state. */
  const AppVersion: string := "1.0.2"

  /** The state used when nothing acceptable was saved. */
  const DefaultState: AppState := AppState(GPA, InitialSemesters, "1.1")

  /** What `JSON.parse` gave back, as far as the shape check looks at it: a falsy value
      (`null`, `0`, `""`, `false`), or a value whose `semesters` is an array (`Some`) or
      not (`None`) and whose `activeSemesterId` is a string (`""` being falsy,
      as a missing one is). */
  datatype Decoded =
    | Falsy
    | Value(mode: Mode, semesters: Option<seq<Semester>>, activeSemesterId: string)

  /** The shape check: `parsed && Array.isArray(parsed.semesters) && parsed.activeSemesterId`. */
  predicate HasStateShape(d: Decoded)
  {
    d.Value? && d.semesters.Some? && d.activeSemesterId != ""
  }

  /** Whether the saved blob is taken: it is a non-empty string, the saved version is
      exactly APP_VERSION, it parses (`parse` gives `None` where `JSON.parse` throws)
      and the parsed value has the expected shape. */
  predicate Accepts(saved: Option<string>, savedVersion: Option<string>,
                    parse: string -> Option<Decoded>)
  {
    && saved.Some? && saved.value != ""
    && savedVersion == Some(AppVersion)
    && parse(saved.value).Some?
    && HasStateShape(parse(saved.value).value)
  }

  /** The initial state: the parsed value when accepted, the seeded default otherwise. */
  function Restore(saved: Option<string>, savedVersion: Option<string>,
                   parse: string -> Option<Decoded>): (r: AppState)
    ensures r == DefaultState || Accepts(saved, savedVersion, parse)
    ensures r != DefaultState ==> savedVersion == Some(AppVersion) && r.activeSemesterId != ""
    ensures Accepts(saved, savedVersion, parse) ==>
      var d := parse(saved.value).value;
      r == AppState(d.mode, d.semesters.value, d.activeSemesterId)
    ensures !Accepts(saved, savedVersion, parse) ==> r == DefaultState
  {
    if Accepts(saved, savedVersion, parse) then
      var d := parse(saved.value).value;
      AppState(d.mode, d.semesters.value, d.activeSemesterId)
    else
      DefaultState
  }

  /** The default state: GPA mode, the eight seeded semesters, the first one (1.1) active. */
  lemma DefaultStateShape()
    ensures DefaultState.mode == GPA
    ensures |DefaultState.semesters| == 8
    ensures DefaultState.activeSemesterId == DefaultState.semesters[0].id == "1.1"
  {
    InitialSemestersShape();
  }

  /** A blob under any other version tag, or no tag, is discarded. */
  lemma VersionMismatchGivesDefault(saved: Option<string>, savedVersion: Option<string>,
                                    parse: string -> Option<Decoded>)
    requires savedVersion != Some(AppVersion)
    ensures Restore(saved, savedVersion, parse) == DefaultState
  {
  }

  /** Missing, empty, unparsable or ill-shaped blobs are discarded. */
  lemma BadBlobGivesDefault(saved: Option<string>, parse: string -> Option<Decoded>)
    requires saved.None? || saved.value == "" || parse(saved.value).None? ||
             !HasStateShape(parse(saved.value).value)
    ensures Restore(saved, Some(AppVersion), parse) == DefaultState
  {
  }

  /** The view of a state that the shape check inspects after a JSON round trip. */
  function Encode(st: AppState): (d: Decoded)
    ensures d.Value? && d.semesters == Some(st.semesters)
    ensures d.mode == st.mode && d.activeSemesterId == st.activeSemesterId
    ensures HasStateShape(d) <==> st.activeSemesterId != ""
  {
    Value(st.mode, Some(st.semesters), st.activeSemesterId)
  }

  /** The shape check accepts exactly the saved views of states with a non-empty
      active id. */
  lemma ShapeIffEncoding(d: Decoded)
    ensures HasStateShape(d) <==> exists st: AppState :: st.activeSemesterId != "" && d == Encode(st)
  {
    if HasStateShape(d) {
      var st := AppState(d.mode, d.semesters.value, d.activeSemesterId);
      assert d == Encode(st);
    }
  }

  /** A blob is accepted exactly when it is a non-empty string saved under APP_VERSION
      that parses to the saved view of some state with a non-empty active id. */
  lemma AcceptsIffEncoding(saved: Option<string>, savedVersion: Option<string>,
                           parse: string -> Option<Decoded>)
    ensures Accepts(saved, savedVersion, parse) <==>
      && saved.Some? && saved.value != ""
      && savedVersion == Some(AppVersion)
      && exists st: AppState :: st.activeSemesterId != "" && parse(saved.value) == Some(Encode(st))
  {
    if saved.Some? && parse(saved.value).Some? {
      var d := parse(saved.value).value;
      ShapeIffEncoding(d);
      if HasStateShape(d) {
        var st: AppState :| st.activeSemesterId != "" && d == Encode(st);
        assert parse(saved.value) == Some(Encode(st));
      }
    }
  }

  /** Saving a state and restoring it under the same version gives the state back,
      provided its active id is non-empty; so the scorecard is the same after reload. */
  lemma RestoreRoundTrip(st: AppState, blob: string, parse: string -> Option<Decoded>)
    requires blob != "" && parse(blob) == Some(Encode(st))
    requires st.activeSemesterId != ""
    ensures Restore(Some(blob), Some(AppVersion), parse) == st
  {
  }

  /** A saved state whose active id is empty is not restored: it fails the truthiness test. */
  lemma EmptyActiveIdNotRestored(st: AppState, blob: string, parse: string -> Option<Decoded>)
    requires parse(blob) == Some(Encode(st)) && st.activeSemesterId == ""
    ensures Restore(Some(blob), Some(AppVersion), parse) == DefaultState
  {
  }
}
