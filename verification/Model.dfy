/** Tuples, filters and the compiled authorization model (zanzibar/model/types.go). */
module AuthModel {
  datatype Option<+T> = None | Some(value: T)

  datatype Result<+T, +E> = Ok(value: T) | Err(error: E)

  /** object_type:object_id#relation@user_type:user_id[#user_relation] */
  datatype Tuple = Tuple(
    objectType: string, objectID: string, relation: string,
    userType: string, userID: string, userRelation: string)

  /** An empty field of a filter matches any value. */
  datatype TupleFilter = TupleFilter(
    objectType: string, objectID: string, relation: string,
    userType: string, userID: string, userRelation: string)

  datatype FromLookup = FromLookup(from: string, lookup: string)

  datatype RewriteRule = RewriteRule(direct: bool, computedRelation: string, fromLookup: Option<FromLookup>)

  datatype RelationDef = RelationDef(directTypes: seq<string>, rewrites: seq<RewriteRule>, minHolders: nat)

  datatype Model = Model(version: string, types: map<string, map<string, RelationDef>>)

  predicate FieldMatches(want: string, have: string) {
    want == "" || have == want
  }

  predicate Matches(t: Tuple, f: TupleFilter) {
    && FieldMatches(f.objectType, t.objectType)
    && FieldMatches(f.objectID, t.objectID)
    && FieldMatches(f.relation, t.relation)
    && FieldMatches(f.userType, t.userType)
    && FieldMatches(f.userID, t.userID)
    && FieldMatches(f.userRelation, t.userRelation)
  }

  /** The filter for every tuple on one object and relation. */
  function OnRelation(objectType: string, objectID: string, relation: string): TupleFilter {
    TupleFilter(objectType, objectID, relation, "", "", "")
  }

  function UserKey(t: Tuple): string {
    t.userType + ":" + t.userID + if t.userRelation != "" then "#" + t.userRelation else ""
  }

  predicate HasRelation(m: Model, objectType: string, relation: string) {
    objectType in m.types && relation in m.types[objectType]
  }

  function MinHolders(m: Option<Model>, objectType: string, relation: string): nat {
    if m.Some? && HasRelation(m.value, objectType, relation)
    then m.value.types[objectType][relation].minHolders else 0
  }
}
