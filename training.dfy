/** The catalog record types of src/types/training.ts. */
module Training {

  datatype BodyArea = FullBody | LegsGlutes | Core | UpperBody | Cardio | Stretch

  /** The string literal that stands for each body area. */
  function BodyAreaName(a: BodyArea): string
  {
    match a
    case FullBody => "full_body"
    case LegsGlutes => "legs_glutes"
    case Core => "core"
    case UpperBody => "upper_body"
    case Cardio => "cardio"
    case Stretch => "stretch"
  }

  datatype EquipmentId =
    | Bodyweight | Mat | Dumbbells | MiniBand | LongBand
    | Kettlebell | ChairStep | JumpRope | StabilityBall | FoamRoller

  /** The string literal that stands for each equipment id. */
  function EquipmentName(e: EquipmentId): string
  {
    match e
    case Bodyweight => "bodyweight"
    case Mat => "mat"
    case Dumbbells => "dumbbells"
    case MiniBand => "mini_band"
    case LongBand => "long_band"
    case Kettlebell => "kettlebell"
    case ChairStep => "chair_step"
    case JumpRope => "jump_rope"
    case StabilityBall => "stability_ball"
    case FoamRoller => "foam_roller"
  }

  /** `label` is a Dafny keyword, so the field is called `labelText`. */
  datatype Equipment = Equipment(id: EquipmentId, labelText: string, description: string, icon: string)

  /** An exercise of the catalog; `intensity` is the `IntensityLevel` 1, 2 or 3. */
  datatype Exercise = Exercise(
    id: string,
    name: string,
    bodyArea: BodyArea,
    equipment: seq<EquipmentId>,
    intensity: int,
    defaultDurationSec: int,
    met: real)

  /** Distinct body areas have distinct names, and none of them is the `'all'` filter value. */
  lemma BodyAreaNamesDistinct(a: BodyArea, b: BodyArea)
    ensures BodyAreaName(a) == BodyAreaName(b) <==> a == b
    ensures BodyAreaName(a) != "all"
  {
  }

  /** Distinct equipment ids have distinct names. */
  lemma EquipmentNamesDistinct(a: EquipmentId, b: EquipmentId)
    ensures EquipmentName(a) == EquipmentName(b) <==> a == b
  {
  }
}
