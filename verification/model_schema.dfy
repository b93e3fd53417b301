/** The part of a Django model's `_meta` the manager consults: field lookup by
    name and whether the field found is a relation. */
module ModelSchema {
  import opened Results

  /** What `_meta.get_field` can hand back. `OneToOneField` subclasses
      `ForeignKey` and is a `ForeignKey` here; every other field, including
      reverse relations, is a `Scalar`. */
  datatype FieldKind = Scalar | ForeignKey | ManyToMany

  /** Field name to field kind; a name outside the map raises `FieldDoesNotExist`. */
  type Schema = map<string, FieldKind>

  /** The `isinstance(field, (ForeignKey, ManyToManyField))` test. */
  predicate IsRelation(k: FieldKind) {
    k.ForeignKey? || k.ManyToMany?
  }

  /** `get_field(name)`, with `FieldDoesNotExist` as None. */
  function GetField(schema: Schema, name: string): (r: Option<FieldKind>)
    ensures r.Some? <==> name in schema
    ensures r.Some? ==> schema[name] == r.value
  {
    if name in schema then Some(schema[name]) else None
  }
}
