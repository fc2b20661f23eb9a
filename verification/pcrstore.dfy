/** The PCR settings store: the sixteen text fields of the protocol form, the selected
    and available drives, and the protocol the form describes. */
module PcrStore {
  import opened JsText
  import opened JsNumber
  import opened Results

  /** The keys of the form. */
  datatype Field =
    | ProtocolName
    | IntroTemp | IntroCycles | IntroSec
    | DenatureTemp | DenatureCycles | DenatureSec
    | AnnealTemp | AnnealCycles | AnnealSec
    | ExtensionTemp | ExtensionCycles | ExtensionSec
    | FinalTemp | FinalCycles | FinalSec

  /** The form as typed: every field is the text of its input. */
  datatype FormData = FormData(
    protocolName: JsString,
    introTemp: JsString, introCycles: JsString, introSec: JsString,
    denatureTemp: JsString, denatureCycles: JsString, denatureSec: JsString,
    annealTemp: JsString, annealCycles: JsString, annealSec: JsString,
    extensionTemp: JsString, extensionCycles: JsString, extensionSec: JsString,
    finalTemp: JsString, finalCycles: JsString, finalSec: JsString)

  datatype Store = Store(formData: FormData, selectedDrive: JsString, availableDrives: seq<JsString>)

  /** `formData[field]`. */
  function Get(form: FormData, field: Field): JsString {
    match field
    case ProtocolName => form.protocolName
    case IntroTemp => form.introTemp
    case IntroCycles => form.introCycles
    case IntroSec => form.introSec
    case DenatureTemp => form.denatureTemp
    case DenatureCycles => form.denatureCycles
    case DenatureSec => form.denatureSec
    case AnnealTemp => form.annealTemp
    case AnnealCycles => form.annealCycles
    case AnnealSec => form.annealSec
    case ExtensionTemp => form.extensionTemp
    case ExtensionCycles => form.extensionCycles
    case ExtensionSec => form.extensionSec
    case FinalTemp => form.finalTemp
    case FinalCycles => form.finalCycles
    case FinalSec => form.finalSec
  }

  /** `{ ...formData, [field]: value }`. */
  function Set(form: FormData, field: Field, value: JsString): (r: FormData)
    ensures Get(r, field) == value
    ensures forall g :: g != field ==> Get(r, g) == Get(form, g)
  {
    match field
    case ProtocolName => form.(protocolName := value)
    case IntroTemp => form.(introTemp := value)
    case IntroCycles => form.(introCycles := value)
    case IntroSec => form.(introSec := value)
    case DenatureTemp => form.(denatureTemp := value)
    case DenatureCycles => form.(denatureCycles := value)
    case DenatureSec => form.(denatureSec := value)
    case AnnealTemp => form.(annealTemp := value)
    case AnnealCycles => form.(annealCycles := value)
    case AnnealSec => form.(annealSec := value)
    case ExtensionTemp => form.(extensionTemp := value)
    case ExtensionCycles => form.(extensionCycles := value)
    case ExtensionSec => form.(extensionSec := value)
    case FinalTemp => form.(finalTemp := value)
    case FinalCycles => form.(finalCycles := value)
    case FinalSec => form.(finalSec := value)
  }

  /** Two forms are the same when every field reads the same. */
  lemma FormExtensionality(a: FormData, b: FormData)
    requires forall f :: Get(a, f) == Get(b, f)
    ensures a == b
  {
    assert Get(a, ProtocolName) == Get(b, ProtocolName);
    assert Get(a, IntroTemp) == Get(b, IntroTemp);
    assert Get(a, IntroCycles) == Get(b, IntroCycles);
    assert Get(a, IntroSec) == Get(b, IntroSec);
    assert Get(a, DenatureTemp) == Get(b, DenatureTemp);
    assert Get(a, DenatureCycles) == Get(b, DenatureCycles);
    assert Get(a, DenatureSec) == Get(b, DenatureSec);
    assert Get(a, AnnealTemp) == Get(b, AnnealTemp);
    assert Get(a, AnnealCycles) == Get(b, AnnealCycles);
    assert Get(a, AnnealSec) == Get(b, AnnealSec);
    assert Get(a, ExtensionTemp) == Get(b, ExtensionTemp);
    assert Get(a, ExtensionCycles) == Get(b, ExtensionCycles);
    assert Get(a, ExtensionSec) == Get(b, ExtensionSec);
    assert Get(a, FinalTemp) == Get(b, FinalTemp);
    assert Get(a, FinalCycles) == Get(b, FinalCycles);
    assert Get(a, FinalSec) == Get(b, FinalSec);
  }

  /** The form as the application starts: every field, the protocol name included, empty. */
  function InitialForm(): (r: FormData)
    ensures forall f :: Get(r, f) == []
  {
    FormData([], [], [], [], [], [], [], [], [], [], [], [], [], [], [], [])
  }

  function Initial(): (s: Store)
    ensures s.formData == InitialForm() && s.selectedDrive == [] && s.availableDrives == []
  {
    Store(InitialForm(), [], [])
  }

  /** `updateField(field, value)`: that field takes the value, no other field changes,
      nor do the drives. */
  function UpdateField(s: Store, field: Field, value: JsString): (r: Store)
    ensures Get(r.formData, field) == value
    ensures forall g :: g != field ==> Get(r.formData, g) == Get(s.formData, g)
    ensures r.selectedDrive == s.selectedDrive && r.availableDrives == s.availableDrives
  {
    s.(formData := Set(s.formData, field, value))
  }

  /** `setSelectedDrive(drive)`: the form is untouched. */
  function SetSelectedDrive(s: Store, drive: JsString): (r: Store)
    ensures r.formData == s.formData && r.availableDrives == s.availableDrives
    ensures r.selectedDrive == drive
  {
    s.(selectedDrive := drive)
  }

  /** `setAvailableDrives(drives)`: the form is untouched. */
  function SetAvailableDrives(s: Store, drives: seq<JsString>): (r: Store)
    ensures r.formData == s.formData && r.selectedDrive == s.selectedDrive
    ensures r.availableDrives == drives
  {
    s.(availableDrives := drives)
  }

  /** `reset()`: the form goes back to its initial, empty state; the drives stay. */
  function Reset(s: Store): (r: Store)
    ensures forall f :: Get(r.formData, f) == []
    ensures r.selectedDrive == s.selectedDrive && r.availableDrives == s.availableDrives
  {
    s.(formData := InitialForm())
  }

  /** Updating a field with the text it already holds changes nothing. */
  lemma UpdateSameValue(s: Store, field: Field)
    ensures UpdateField(s, field, Get(s.formData, field)) == s
  {
    FormExtensionality(UpdateField(s, field, Get(s.formData, field)).formData, s.formData);
  }

  /** Updates to different fields commute. */
  lemma UpdatesCommute(s: Store, f: Field, v: JsString, g: Field, w: JsString)
    requires f != g
    ensures UpdateField(UpdateField(s, f, v), g, w) == UpdateField(UpdateField(s, g, w), f, v)
  {
  }

  /** A later update of the same field overrides an earlier one. */
  lemma UpdateOverrides(s: Store, f: Field, v: JsString, w: JsString)
    ensures UpdateField(UpdateField(s, f, v), f, w) == UpdateField(s, f, w)
  {
  }

  /** Whatever was typed before, a reset gives the initial form back. */
  lemma ResetForgets(s: Store, f: Field, v: JsString)
    ensures Reset(UpdateField(s, f, v)).formData == Initial().formData
  {
  }

  // ---------------------------------------------------------------------------
  // The protocol

  /** One stage of a PCR protocol. */
  datatype Stage = Stage(name: JsString, temperature: real, cycles: int, seconds: int)

  datatype Protocol = Protocol(
    protocolName: JsString,
    introDenaturing: Stage, denaturing: Stage, annealing: Stage, extension: Stage, finalExtension: Stage)

  /** The five stages in their fixed order. */
  function Stages(p: Protocol): (r: seq<Stage>)
    ensures |r| == 5
  {
    [p.introDenaturing, p.denaturing, p.annealing, p.extension, p.finalExtension]
  }

  /** The fixed stage names, in order. */
  function StageNames(): (r: seq<JsString>)
    ensures |r| == 5
  {
    [Lit("Intro Denaturing"), Lit("Denaturing"), Lit("Annealing"), Lit("Extension"), Lit("Final Extension")]
  }

  /** The temperature, cycles and seconds fields of stage `i`. */
  function StageFields(i: nat): (Field, Field, Field)
    requires i < 5
  {
    [(IntroTemp, IntroCycles, IntroSec), (DenatureTemp, DenatureCycles, DenatureSec),
     (AnnealTemp, AnnealCycles, AnnealSec), (ExtensionTemp, ExtensionCycles, ExtensionSec),
     (FinalTemp, FinalCycles, FinalSec)][i]
  }

  /** `parseFloat(text) || 0`, with `parseFloat` a parameter that gives `None` for NaN. */
  function FloatOrZero(parseFloat: JsString -> Option<real>, text: JsString): real {
    parseFloat(text).GetOr(0.0)
  }

  /** The stage named `name` read from its three fields. */
  function ReadStage(form: FormData, name: JsString, fields: (Field, Field, Field), parseFloat: JsString -> Option<real>): (r: Stage)
    ensures r.name == name
  {
    Stage(name,
      FloatOrZero(parseFloat, Get(form, fields.0)),
      ParseIntOrZero(Get(form, fields.1)),
      ParseIntOrZero(Get(form, fields.2)))
  }

  /** Stage `i`, with the `i`-th fixed name, read from the fields of stage `i`. */
  function StageOf(form: FormData, i: nat, parseFloat: JsString -> Option<real>): (r: Stage)
    requires i < 5
  {
    ReadStage(form, StageNames()[i], StageFields(i), parseFloat)
  }

  /** Stages `0 .. n - 1`, each read from its own fields. */
  function ReadStages(form: FormData, n: nat, parseFloat: JsString -> Option<real>): (r: seq<Stage>)
    requires n <= 5
    ensures |r| == n
  {
    if n == 0 then [] else ReadStages(form, n - 1, parseFloat) + [StageOf(form, n - 1, parseFloat)]
  }

  /** `getProtocol()`: the protocol name as typed and five stages with the fixed names,
      each read from its own three fields. */
  function GetProtocol(s: Store, parseFloat: JsString -> Option<real>): (p: Protocol)
    ensures p.protocolName == s.formData.protocolName
  {
    var st := ReadStages(s.formData, 5, parseFloat);
    Protocol(s.formData.protocolName, st[0], st[1], st[2], st[3], st[4])
  }

  /** Stage `i` of the protocol carries the `i`-th fixed name and is read from the
      fields of stage `i` and from nothing else: cycles and seconds through
      `parseInt(...) || 0`, the temperature through `parseFloat(...) || 0`. */
  lemma StageReadsItsFields(s: Store, parseFloat: JsString -> Option<real>, i: nat)
    requires i < 5
    ensures var st := Stages(GetProtocol(s, parseFloat))[i];
      var (t, c, sec) := StageFields(i);
      && st.name == StageNames()[i]
      && st.temperature == FloatOrZero(parseFloat, Get(s.formData, t))
      && st.cycles == ParseIntOrZero(Get(s.formData, c))
      && st.seconds == ParseIntOrZero(Get(s.formData, sec))
  {
    StageInPlace(s, parseFloat, i);
  }

  /** The protocol's stage `i` is `StageOf` stage `i`. */
  lemma StageInPlace(s: Store, parseFloat: JsString -> Option<real>, i: nat)
    requires i < 5
    ensures Stages(GetProtocol(s, parseFloat))[i] == StageOf(s.formData, i, parseFloat)
  {
    var st := ReadStages(s.formData, 5, parseFloat);
    assert Stages(GetProtocol(s, parseFloat)) == st;
    ReadStagesAt(s.formData, 5, parseFloat, i);
  }

  lemma {:induction false} ReadStagesAt(form: FormData, n: nat, parseFloat: JsString -> Option<real>, i: nat)
    requires i < n <= 5
    ensures ReadStages(form, n, parseFloat)[i] == StageOf(form, i, parseFloat)
  {
    if i < n - 1 {
      ReadStagesAt(form, n - 1, parseFloat, i);
    }
  }

  /** Typing into a field of another stage, or into the name, leaves stage `i` as it was. */
  lemma OtherFieldsDoNotMatter(s: Store, parseFloat: JsString -> Option<real>, i: nat, f: Field, v: JsString)
    requires i < 5
    requires f != StageFields(i).0 && f != StageFields(i).1 && f != StageFields(i).2
    ensures Stages(GetProtocol(UpdateField(s, f, v), parseFloat))[i] == Stages(GetProtocol(s, parseFloat))[i]
  {
    var typed := UpdateField(s, f, v);
    var (t, c, sec) := StageFields(i);
    assert Get(typed.formData, t) == Get(s.formData, t);
    assert Get(typed.formData, c) == Get(s.formData, c);
    assert Get(typed.formData, sec) == Get(s.formData, sec);
    StageReadsItsFields(s, parseFloat, i);
    StageReadsItsFields(typed, parseFloat, i);
  }

  /** A cycles or seconds field without any digit, the empty field included, gives 0. */
  lemma NoDigitsGiveZero(s: Store, parseFloat: JsString -> Option<real>, i: nat)
    requires i < 5
    requires forall k :: 0 <= k < |Get(s.formData, StageFields(i).1)| ==> !IsDecimalDigit(Get(s.formData, StageFields(i).1)[k])
    requires forall k :: 0 <= k < |Get(s.formData, StageFields(i).2)| ==> !IsDecimalDigit(Get(s.formData, StageFields(i).2)[k])
    ensures Stages(GetProtocol(s, parseFloat))[i].cycles == 0
    ensures Stages(GetProtocol(s, parseFloat))[i].seconds == 0
  {
    StageReadsItsFields(s, parseFloat, i);
    ParseIntNoDigits(Get(s.formData, StageFields(i).1));
    ParseIntNoDigits(Get(s.formData, StageFields(i).2));
  }

  /** The protocol of an untouched form: no name and every stage at zero, given that
      `parseFloat` of the empty string is NaN. */
  lemma EmptyProtocol(parseFloat: JsString -> Option<real>)
    requires parseFloat([]) == None
    ensures var p := GetProtocol(Initial(), parseFloat);
      && p.protocolName == []
      && forall i :: 0 <= i < 5 ==> Stages(p)[i] == Stage(StageNames()[i], 0.0, 0, 0)
  {
    forall i | 0 <= i < 5
      ensures Stages(GetProtocol(Initial(), parseFloat))[i] == Stage(StageNames()[i], 0.0, 0, 0)
    {
      NoDigitsGiveZero(Initial(), parseFloat, i);
      StageReadsItsFields(Initial(), parseFloat, i);
    }
  }
}
