/** The eight canonical object colours and the two numeric id schemes that name them
    (src/models/object/color.rs). Ids are widened from `u32` to `nat`. */
module Colors {
  import opened Wrappers

  datatype Color = Player1 | Player2 | Col1 | Col2 | LightBG | Col3 | Col4 | DLine

  /** The enum's discriminant, which is also its legacy id. */
  function Discriminant(c: Color): (n: nat)
    ensures 1 <= n <= 8
  {
    match c
    case Player1 => 1
    case Player2 => 2
    case Col1 => 3
    case Col2 => 4
    case LightBG => 5
    case Col3 => 6
    case Col4 => 7
    case DLine => 8
  }

  /** `Color::from_old_id`: the legacy scheme, which is the discriminant read back. */
  function FromOldId(id: nat): (r: Option<Color>)
    ensures r.Some? <==> 1 <= id <= 8
    ensures r.Some? ==> Discriminant(r.value) == id
  {
    match id
    case 1 => Some(Player1)
    case 2 => Some(Player2)
    case 3 => Some(Col1)
    case 4 => Some(Col2)
    case 5 => Some(LightBG)
    case 6 => Some(Col3)
    case 7 => Some(Col4)
    case 8 => Some(DLine)
    case _ => None
  }

  /** The ids the new scheme knows. */
  predicate IsNewId(id: nat) {
    id in {1, 2, 3, 4, 5, 1003, 1005, 1006, 1007}
  }

  /** `Color::from_new_id`: the new scheme, defined on nine ids. */
  function FromNewId(id: nat): (r: Option<Color>)
    ensures r.Some? <==> IsNewId(id)
  {
    match id
    case 1 => Some(Col1)
    case 2 => Some(Col2)
    case 3 => Some(Col3)
    case 4 => Some(Col4)
    case 5 => Some(DLine)
    case 1003 => Some(DLine)
    case 1005 => Some(Player1)
    case 1006 => Some(Player2)
    case 1007 => Some(LightBG)
    case _ => None
  }

  /** The legacy table inverts the discriminant, and is injective on its domain. */
  lemma OldIdInvertsDiscriminant(c: Color)
    ensures FromOldId(Discriminant(c)) == Some(c)
  {
  }

  /** The new table is not injective: 5 and 1003 both name the 3D-line colour. */
  lemma NewIdNotInjective()
    ensures FromNewId(5) == FromNewId(1003) == Some(DLine)
  {
  }

  /** A new-scheme id for each colour: every colour is reachable from the new table. */
  function NewIdOf(c: Color): (id: nat)
    ensures FromNewId(id) == Some(c)
  {
    match c
    case Player1 => 1005
    case Player2 => 1006
    case Col1 => 1
    case Col2 => 2
    case LightBG => 1007
    case Col3 => 3
    case Col4 => 4
    case DLine => 1003
  }

  /** The two schemes disagree on every id they share: 1 to 5 name different colours. */
  lemma SchemesDisagree(id: nat)
    requires 1 <= id <= 5
    ensures FromOldId(id).Some? && FromNewId(id).Some?
    ensures FromOldId(id) != FromNewId(id)
  {
  }
}
