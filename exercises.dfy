/** The exercise catalog of src/data/exercises.ts and its lookup and filters.
    Descriptions, coaching cues and media links are not modelled. */
module Exercises {
  import opened Seqs
  import opened Training

  /** `EXERCISES`, in catalog order. */
  const EXERCISES: seq<Exercise> := [
    Exercise("jumping_jacks", "Jumping Jacks", FullBody, [Bodyweight], 2, 45, 8.0),
    Exercise("burpees", "Burpees", FullBody, [Bodyweight, Mat], 3, 30, 10.0),
    Exercise("bodyweight_squat", "Bodyweight Squat", LegsGlutes, [Bodyweight], 1, 45, 5.0),
    Exercise("glute_bridge", "Glute Bridge", LegsGlutes, [Mat], 1, 40, 3.5),
    Exercise("dumbbell_goblet_squat", "Goblet Squat", LegsGlutes, [Dumbbells], 2, 45, 6.0),
    Exercise("plank", "Plank", Core, [Mat], 2, 45, 4.0),
    Exercise("bicycle_crunches", "Bicycle Crunches", Core, [Mat], 2, 40, 4.5),
    Exercise("incline_pushup", "Incline Push-up", UpperBody, [ChairStep], 1, 40, 4.0),
    Exercise("dumbbell_row", "Dumbbell Row", UpperBody, [Dumbbells, ChairStep], 2, 45, 5.0),
    Exercise("high_knees", "High Knees", Cardio, [Bodyweight], 3, 30, 9.0),
    Exercise("childs_pose", "Child's Pose", Stretch, [Mat], 1, 60, 2.0)
  ]

  // ---------------------------------------------------------------------------
  // getExerciseById

  /** The test `e.id === id`. */
  function HasId(id: string): Exercise -> bool
  {
    (e: Exercise) => e.id == id
  }

  /** `getExerciseById`: the first entry whose id is `id`, if any. */
  function GetExerciseById(id: string): (r: Option<Exercise>)
    ensures r.None? <==> forall i :: 0 <= i < |EXERCISES| ==> EXERCISES[i].id != id
    ensures r.Some? ==> exists i :: 0 <= i < |EXERCISES| && EXERCISES[i] == r.value && r.value.id == id &&
                                    forall j :: 0 <= j < i ==> EXERCISES[j].id != id
  {
    Find(EXERCISES, HasId(id))
  }

  /** Eleven entries with pairwise distinct ids, intensities 1 to 3, positive default
      durations and MET values, and at least one piece of equipment each. */
  lemma CatalogShape()
    ensures |EXERCISES| == 11
    ensures forall i, j :: 0 <= i < j < |EXERCISES| ==> EXERCISES[i].id != EXERCISES[j].id
    ensures forall i :: 0 <= i < |EXERCISES| ==>
      && 1 <= EXERCISES[i].intensity <= 3
      && EXERCISES[i].defaultDurationSec > 0
      && EXERCISES[i].met > 0.0
      && |EXERCISES[i].equipment| > 0
  {
    forall i, j | 0 <= i < j < |EXERCISES| ensures EXERCISES[i].id != EXERCISES[j].id {
      var a, b := EXERCISES[i].id, EXERCISES[j].id;
      assert |a| != |b| || a[1] != b[1];
    }
  }

  /** Every catalog id finds its own entry. */
  lemma LookupFindsEntry(i: int)
    requires 0 <= i < |EXERCISES|
    ensures GetExerciseById(EXERCISES[i].id) == Some(EXERCISES[i])
  {
    CatalogShape();
  }

  // ---------------------------------------------------------------------------
  // getExercisesByBodyArea

  /** The test `e.bodyArea === bodyArea`. */
  function InArea(bodyArea: string): Exercise -> bool
  {
    (e: Exercise) => BodyAreaName(e.bodyArea) == bodyArea
  }

  /** `getExercisesByBodyArea`: the whole catalog for `'all'`, otherwise the entries of
      that body area, in catalog order. */
  function ExercisesByBodyArea(bodyArea: string): (r: seq<Exercise>)
    ensures IsSubseq(r, EXERCISES)
    ensures bodyArea == "all" ==> r == EXERCISES
    ensures bodyArea != "all" ==>
      forall e :: e in r <==> e in EXERCISES && BodyAreaName(e.bodyArea) == bodyArea
  {
    if bodyArea == "all" then
      IsSubseqReflexive(EXERCISES);
      EXERCISES
    else
      var r := Filter(EXERCISES, InArea(bodyArea));
      assert forall e :: e in r <==> e in EXERCISES && BodyAreaName(e.bodyArea) == bodyArea by {
        forall e ensures e in r <==> e in EXERCISES && BodyAreaName(e.bodyArea) == bodyArea {
          FilterMembers(EXERCISES, InArea(bodyArea), e);
        }
      }
      r
  }

  /** The body-area lists partition the catalog: each entry is listed under its own
      area and under no other. */
  lemma BodyAreasPartition(e: Exercise, a: BodyArea)
    requires e in EXERCISES
    ensures e in ExercisesByBodyArea(BodyAreaName(a)) <==> e.bodyArea == a
  {
    BodyAreaNamesDistinct(e.bodyArea, a);
  }

  // ---------------------------------------------------------------------------
  // getExercisesByEquipment

  /** `e.equipment.includes(eq)`. */
  predicate Includes(equipment: seq<EquipmentId>, eq: string)
  {
    exists j :: 0 <= j < |equipment| && EquipmentName(equipment[j]) == eq
  }

  /** `equipmentIds.some((eq) => e.equipment.includes(eq))`. */
  predicate UsesAnyOf(e: Exercise, equipmentIds: seq<string>)
  {
    exists k :: 0 <= k < |equipmentIds| && Includes(e.equipment, equipmentIds[k])
  }

  function UsesAny(equipmentIds: seq<string>): Exercise -> bool
  {
    (e: Exercise) => UsesAnyOf(e, equipmentIds)
  }

  /** `getExercisesByEquipment`: the whole catalog for an empty list, otherwise the
      entries that use at least one of the listed ids, in catalog order. */
  function ExercisesByEquipment(equipmentIds: seq<string>): (r: seq<Exercise>)
    ensures IsSubseq(r, EXERCISES)
    ensures equipmentIds == [] ==> r == EXERCISES
    ensures equipmentIds != [] ==>
      forall e :: e in r <==> e in EXERCISES && UsesAnyOf(e, equipmentIds)
  {
    if |equipmentIds| == 0 then
      IsSubseqReflexive(EXERCISES);
      EXERCISES
    else
      var r := Filter(EXERCISES, UsesAny(equipmentIds));
      assert forall e :: e in r <==> e in EXERCISES && UsesAnyOf(e, equipmentIds) by {
        forall e ensures e in r <==> e in EXERCISES && UsesAnyOf(e, equipmentIds) {
          FilterMembers(EXERCISES, UsesAny(equipmentIds), e);
        }
      }
      r
  }

  /** Adding ids to a non-empty list never drops an entry, and keeps catalog order. */
  lemma MoreEquipmentMoreExercises(equipmentIds: seq<string>, more: seq<string>)
    requires equipmentIds != []
    ensures IsSubseq(ExercisesByEquipment(equipmentIds), ExercisesByEquipment(equipmentIds + more))
  {
    var bigger := equipmentIds + more;
    forall e | UsesAny(equipmentIds)(e) ensures UsesAny(bigger)(e) {
      var k :| 0 <= k < |equipmentIds| && Includes(e.equipment, equipmentIds[k]);
      assert bigger[k] == equipmentIds[k];
    }
    FilterMonotone(EXERCISES, UsesAny(equipmentIds), UsesAny(bigger));
  }
}
