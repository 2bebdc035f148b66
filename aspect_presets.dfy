/** The preset table of CropAspectRatio.swift: eight presets, each with the
    ratio it stands for and the label the ratio menu shows. */
module AspectPresets {
  import opened Geometry

  datatype CropAspectRatio =
    | Square
    | Portrait1x2
    | Landscape2x1
    | Portrait3x4
    | Landscape4x3
    | Portrait9x16
    | Landscape16x9
    | Freeform
  {
    /** Position of the case in the declaration, from 0. */
    function Ordinal(): nat {
      match this
      case Square => 0
      case Portrait1x2 => 1
      case Landscape2x1 => 2
      case Portrait3x4 => 3
      case Landscape4x3 => 4
      case Portrait9x16 => 5
      case Landscape16x9 => 6
      case Freeform => 7
    }

    /** The sides of the preset's ratio as whole numbers; `Freeform` has no
        ratio of its own yet and stands for 1:1. This is the table of `Ratio`
        in `nat`; it exists so that `DisplayName` can be specified by the
        digits of the sides without taking the floor of a real. */
    function Sides(): (wh: (nat, nat))
      ensures wh.0 > 0 && wh.1 > 0
    {
      match this
      case Square => (1, 1)
      case Portrait1x2 => (1, 2)
      case Landscape2x1 => (2, 1)
      case Portrait3x4 => (3, 4)
      case Landscape4x3 => (4, 3)
      case Portrait9x16 => (9, 16)
      case Landscape16x9 => (16, 9)
      case Freeform => (1, 1)
    }

    /** The ratio of the preset: positive, with the whole-number sides of
        `Sides()`. */
    function Ratio(): (r: CropRatio)
      ensures r.Positive()
      ensures r == CropRatio(Sides().0 as real, Sides().1 as real)
    {
      match this
      case Square => CropRatio(1.0, 1.0)
      case Portrait1x2 => CropRatio(1.0, 2.0)
      case Landscape2x1 => CropRatio(2.0, 1.0)
      case Portrait3x4 => CropRatio(3.0, 4.0)
      case Landscape4x3 => CropRatio(4.0, 3.0)
      case Portrait9x16 => CropRatio(9.0, 16.0)
      case Landscape16x9 => CropRatio(16.0, 9.0)
      case Freeform => CropRatio(1.0, 1.0)
    }

    /** The menu label: "w:h" of the ratio's sides, except for `Freeform`. */
    function DisplayName(): (s: string)
      ensures this != Freeform ==> s == DecimalString(Sides().0) + ":" + DecimalString(Sides().1)
      ensures this == Freeform ==> s == "Freeform"
    {
      match this
      case Square => "1:1"
      case Portrait1x2 => "1:2"
      case Landscape2x1 => "2:1"
      case Portrait3x4 => "3:4"
      case Landscape4x3 => "4:3"
      case Portrait9x16 => "9:16"
      case Landscape16x9 => "16:9"
      case Freeform => "Freeform"
    }
  }

  /** Every preset, each once, in declaration order. */
  function AllCases(): (cases: seq<CropAspectRatio>)
    ensures |cases| == 8
    ensures forall i :: 0 <= i < |cases| ==> cases[i].Ordinal() == i
    ensures forall p: CropAspectRatio :: p in cases
  {
    var cases := [Square, Portrait1x2, Landscape2x1, Portrait3x4, Landscape4x3, Portrait9x16, Landscape16x9, Freeform];
    assert forall p: CropAspectRatio :: p in cases by {
      forall p: CropAspectRatio ensures p in cases {
        assert cases[p.Ordinal()] == p;
      }
    }
    cases
  }

  /** No preset appears twice in AllCases. */
  lemma AllCasesDistinct()
    ensures forall i, j :: 0 <= i < j < |AllCases()| ==> AllCases()[i] != AllCases()[j]
  {
    var cases := AllCases();
    forall i, j | 0 <= i < j < |cases| ensures cases[i] != cases[j] {
      assert cases[i].Ordinal() == i && cases[j].Ordinal() == j;
    }
  }

  /** The decimal digits of `n`. */
  function DecimalString(n: nat): (s: string)
    ensures |s| >= 1
    decreases n
  {
    var digit := "0123456789"[n % 10];
    if n < 10 then [digit] else DecimalString(n / 10) + [digit]
  }

  /** `Freeform` is a placeholder with the same ratio as `Square`. */
  lemma FreeformIsSquare()
    ensures Freeform.Ratio() == Square.Ratio()
  {
  }

  /** Each landscape preset is its portrait counterpart turned sideways. */
  lemma LandscapeIsPortraitSwapped()
    ensures Landscape2x1.Ratio() == Portrait1x2.Ratio().Swapped()
    ensures Landscape4x3.Ratio() == Portrait3x4.Ratio().Swapped()
    ensures Landscape16x9.Ratio() == Portrait9x16.Ratio().Swapped()
  {
  }
}
