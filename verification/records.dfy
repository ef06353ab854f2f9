/**
 * Records of the contacts grid: a row (and a draft, which has the same shape)
 * is a plain object, modelled as a map from field name to value. The `Id`
 * field identifies the contact the row or draft belongs to.
 */
module Records {
  import opened Wrappers

  /** One entry of the Lead Source picklist, as the metadata service returns it. */
  datatype PicklistOption = PicklistOption(labelText: string, value: string)

  /** A field value: a scalar written as text, or the picklist option list stamped on a row. */
  datatype Value = Text(text: string) | Options(entries: seq<PicklistOption>)

  /** A contact row, or a draft holding a partial set of field overrides. */
  type Row = map<string, Value>

  /** The key field of both rows and drafts. */
  const IdField: string := "Id"

  /** The field that carries the picklist options into the picklist cell. */
  const OptionsField: string := "pickListOptions"

  /** The identity of a record; `None` stands for an object without an `Id` (JavaScript `undefined`). */
  function IdOf(r: Row): (k: Option<Value>)
    ensures k.Some? <==> IdField in r
    ensures k.Some? ==> k.value == r[IdField]
  {
    if IdField in r then Some(r[IdField]) else None
  }

  /**
   * Strict equality of the two `Id`s: two records match when both carry the
   * same Id, and also when neither carries one (both are `undefined`).
   */
  predicate SameId(a: Row, b: Row) {
    IdOf(a) == IdOf(b)
  }

  /**
   * `r` is `base` with every field of `edit` written over it: the fields of
   * both, the edit's value wherever the edit has the field, the base's
   * value everywhere else.
   */
  ghost predicate Overrides(r: Row, base: Row, edit: Row) {
    && r.Keys == base.Keys + edit.Keys
    && (forall f :: f in edit ==> r[f] == edit[f])
    && (forall f :: f in base && f !in edit ==> r[f] == base[f])
  }

  /** Copy every field of the edit onto the record, overwriting the fields both have. */
  function Merge(base: Row, edit: Row): (r: Row)
    ensures Overrides(r, base, edit)
    ensures SameId(base, edit) ==> SameId(r, base)
  {
    base + edit
  }
}
