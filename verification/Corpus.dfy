/** Records of the screening list, and the traffic-light bands of a search result. */
module Corpus {
  import opened Wrappers

  datatype EntityType = Individual | Entity | Vessel | Aircraft | Unknown

  datatype Entry = Entry(
    id: string,
    sourceList: string,
    name: string,
    aliases: seq<string>,
    entityType: EntityType,
    addresses: seq<string>,
    nationalities: seq<string>,
    programs: seq<string>
  )

  datatype Tlp = Green | Yellow | Red

  datatype Thresholds = Thresholds(red: real, yellow: real)

  const DEFAULT_THRESHOLDS := Thresholds(0.95, 0.75)

  function Band(top: Option<real>, exactAliasMatch: bool, t: Thresholds): Tlp {
    if exactAliasMatch then Red
    else match top
      case Some(s) => if s >= t.red then Red else if s >= t.yellow then Yellow else Green
      case None => Green
  }
}
