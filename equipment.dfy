/** The equipment catalog of src/data/equipment.ts and its lookup by id. */
module EquipmentCatalog {
  import opened Seqs
  import opened Training

  /** `EQUIPMENT`, in catalog order; every icon name is the id itself. */
  const EQUIPMENT: seq<Equipment> := [
    Equipment(Bodyweight, "Bodyweight", "No equipment needed - just your body!", "bodyweight"),
    Equipment(Mat, "Yoga Mat", "A soft surface for floor exercises", "mat"),
    Equipment(Dumbbells, "Dumbbells", "Free weights for strength training", "dumbbells"),
    Equipment(MiniBand, "Mini Band", "Small resistance loop for lower body", "mini_band"),
    Equipment(LongBand, "Long Band", "Full-length resistance band", "long_band"),
    Equipment(Kettlebell, "Kettlebell", "Cast iron weight for dynamic movements", "kettlebell"),
    Equipment(ChairStep, "Chair/Step", "Elevated surface for step exercises", "chair_step"),
    Equipment(JumpRope, "Jump Rope", "Classic cardio equipment", "jump_rope"),
    Equipment(StabilityBall, "Stability Ball", "Large exercise ball for core work", "stability_ball"),
    Equipment(FoamRoller, "Foam Roller", "Self-massage and recovery tool", "foam_roller")
  ]

  /** The test `e.id === id`. */
  function HasId(id: string): Equipment -> bool
  {
    (e: Equipment) => EquipmentName(e.id) == id
  }

  /** `getEquipmentById`: the first entry whose id is `id`, if any. */
  function GetEquipmentById(id: string): (r: Option<Equipment>)
    ensures r.Some? ==> r.value in EQUIPMENT && EquipmentName(r.value.id) == id
    ensures r.None? <==> forall i :: 0 <= i < |EQUIPMENT| ==> EquipmentName(EQUIPMENT[i].id) != id
  {
    Find(EQUIPMENT, HasId(id))
  }

  /** The place of each id in the `EquipmentId` union. */
  function Position(eid: EquipmentId): nat
  {
    match eid
    case Bodyweight => 0
    case Mat => 1
    case Dumbbells => 2
    case MiniBand => 3
    case LongBand => 4
    case Kettlebell => 5
    case ChairStep => 6
    case JumpRope => 7
    case StabilityBall => 8
    case FoamRoller => 9
  }

  /** Ten entries, one per equipment id in the order of the union, so no id is listed
      twice and every id is listed. */
  lemma CatalogShape()
    ensures |EQUIPMENT| == 10
    ensures forall i :: 0 <= i < |EQUIPMENT| ==> Position(EQUIPMENT[i].id) == i
    ensures forall eid :: Position(eid) < |EQUIPMENT| && EQUIPMENT[Position(eid)].id == eid
    ensures forall i, j :: 0 <= i < j < |EQUIPMENT| ==> EQUIPMENT[i].id != EQUIPMENT[j].id
  {
    forall i | 0 <= i < |EQUIPMENT| ensures Position(EQUIPMENT[i].id) == i {
      if i < 5 {
        assert i == 0 || i == 1 || i == 2 || i == 3 || i == 4;
      } else {
        assert i == 5 || i == 6 || i == 7 || i == 8 || i == 9;
      }
    }
    forall i, j | 0 <= i < j < |EQUIPMENT| ensures EQUIPMENT[i].id != EQUIPMENT[j].id {
      assert Position(EQUIPMENT[i].id) != Position(EQUIPMENT[j].id);
    }
  }

  /** Each entry's icon name is its id. */
  lemma IconIsId()
    ensures forall i :: 0 <= i < |EQUIPMENT| ==> EQUIPMENT[i].icon == EquipmentName(EQUIPMENT[i].id)
  {
    forall i | 0 <= i < |EQUIPMENT| ensures EQUIPMENT[i].icon == EquipmentName(EQUIPMENT[i].id) {
      if i < 5 {
        assert i == 0 || i == 1 || i == 2 || i == 3 || i == 4;
      } else {
        assert i == 5 || i == 6 || i == 7 || i == 8 || i == 9;
      }
    }
  }

  /** Looking up the name of any equipment id finds exactly that entry. */
  lemma LookupFindsEntry(eid: EquipmentId)
    ensures GetEquipmentById(EquipmentName(eid)).Some?
    ensures GetEquipmentById(EquipmentName(eid)).value.id == eid
  {
    CatalogShape();
    var r := GetEquipmentById(EquipmentName(eid));
    var i := Position(eid);
    assert HasId(EquipmentName(eid))(EQUIPMENT[i]);
    EquipmentNamesDistinct(r.value.id, eid);
  }

  /** A string that names no equipment id finds nothing. */
  lemma LookupOfUnknownId(id: string)
    requires forall eid: EquipmentId :: EquipmentName(eid) != id
    ensures GetEquipmentById(id).None?
  {
  }
}
