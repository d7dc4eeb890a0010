/** The data the library handles: scalar values, the attribute trees that
    dot-paths walk, subjects (Eloquent models) and index rows. */
module Values {
  import opened Common

  /** A scalar attribute or row value: PHP `null` or a string. */
  datatype Val = Null | Str(s: string)

  /** A subject's attributes as a tree: a scalar, a record (a model or an
      object with named attributes) or a list (a relation's collection). */
  datatype Node = Leaf(v: Val) | Rec(fields: map<string, Node>) | Many(items: seq<Node>)

  /** A model instance of class `cls` with primary key `id`. */
  datatype Subject = Subject(cls: string, id: Id, fields: map<string, Node>)

  /** One entry of the `facetrows` table: `(facet_slug, subject_id, value)`. */
  datatype Row = Row(slug: string, subjectId: Id, value: Val)

  /** PHP's `(string)` cast: `null` becomes the empty string. */
  function Text(v: Val): string {
    match v
    case Null => ""
    case Str(s) => s
  }

  /** `$value == ''` under PHP 8 loose comparison: null and the empty string. */
  predicate Blank(v: Val) {
    Text(v) == ""
  }

  /** Survives `Collection::filter()` without a callback: not null, not "" and not "0". */
  predicate Truthy(v: Val) {
    Text(v) != "" && Text(v) != "0"
  }

  /** The scalar a plucked node stands for; a record or list reads as null. */
  function ScalarOf(n: Node): Val {
    if n.Leaf? then n.v else Null
  }

  function Ids(subjects: seq<Subject>): (ids: seq<Id>)
    ensures |ids| == |subjects|
    ensures forall i | 0 <= i < |subjects| :: ids[i] == subjects[i].id
  {
    seq(|subjects|, i requires 0 <= i < |subjects| => subjects[i].id)
  }
}
