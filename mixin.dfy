/** The lookups every model shares (ModelMixin), over an in-memory collection:
    a map from id to document. */
module Mixin {
  import opened Records

  /** `one(_id=id)`: no id at all is a programming error; an id that does not
      parse, or that nothing is stored under, finds nothing. */
  function One<T>(docs: map<Id, T>, id: Id): (r: Result<Option<T>>)
    ensures r.Err? <==> id == ""
    ensures r.Err? ==> r.error == NoCriteria
    ensures r.Ok? && r.value.Some? <==> id != "" && ValidId(id) && id in docs
    ensures r.Ok? && r.value.Some? ==> r.value.value == docs[id]
  {
    if id == "" then Err(NoCriteria)
    else if ValidId(id) && id in docs then Ok(Some(docs[id]))
    else Ok(None)
  }

  /** `find(ids)`: no ids means every document; one id that does not parse
      means none; otherwise the documents stored under the ids given, each
      once however often its id is repeated. */
  function Find<T>(docs: map<Id, T>, ids: seq<Id>): (r: map<Id, T>)
    ensures ids == [] ==> r == docs
    ensures (exists i | 0 <= i < |ids| :: !ValidId(ids[i])) ==> r == map[]
    ensures (forall i | 0 <= i < |ids| :: ValidId(ids[i])) && ids != [] ==>
              forall id :: id in r <==> id in docs && id in ids
    ensures forall id | id in r :: id in docs && r[id] == docs[id]
  {
    if ids == [] then docs
    else if exists i | 0 <= i < |ids| :: !ValidId(ids[i]) then map[]
    else map id | id in docs && id in ids :: docs[id]
  }
}
