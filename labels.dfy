/**
 * The label helpers of the static `Lezer`: the message keys built from a
 * model's type name and a field name, looked up with no arguments. The type
 * name, which the source obtains from the model object, is given as a string.
 */
module Labels {
  import opened Lookup

  /** `sprintf('MODEL_%s_INSTANCE', $type)`. */
  function InstanceKey(modelType: string): string
  {
    "MODEL_" + modelType + "_INSTANCE"
  }

  /** `sprintf('MODEL_%s_FIELD_%s', $type, $field)`. */
  function FieldKey(modelType: string, field: string): string
  {
    "MODEL_" + modelType + "_FIELD_" + field
  }

  /** `model_type_to_label`: the translation of the instance key, or the key itself when undefined. */
  function ModelTypeToLabel(catalog: Catalog, modelType: string): (r: string)
    ensures InstanceKey(modelType) !in catalog ==> r == InstanceKey(modelType)
    ensures InstanceKey(modelType) in catalog ==> r == catalog[InstanceKey(modelType)]
  {
    Translate(catalog, InstanceKey(modelType))
  }

  /** `field_name_to_label`: the translation of the field key, or the key itself when undefined. */
  function FieldNameToLabel(catalog: Catalog, modelType: string, field: string): (r: string)
    ensures FieldKey(modelType, field) !in catalog ==> r == FieldKey(modelType, field)
    ensures FieldKey(modelType, field) in catalog ==> r == catalog[FieldKey(modelType, field)]
  {
    Translate(catalog, FieldKey(modelType, field))
  }

  /** Distinct model types have distinct instance keys. */
  lemma InstanceKeyInjective(a: string, b: string)
    requires InstanceKey(a) == InstanceKey(b)
    ensures a == b
  {
    var ka, kb := InstanceKey(a), InstanceKey(b);
    assert |a| == |b|;
    assert a == ka[6..6 + |a|];
    assert b == kb[6..6 + |b|];
  }

  /** For one model type, distinct fields have distinct keys. */
  lemma FieldKeyInjective(modelType: string, f: string, g: string)
    requires FieldKey(modelType, f) == FieldKey(modelType, g)
    ensures f == g
  {
    var n := |"MODEL_" + modelType + "_FIELD_"|;
    assert f == FieldKey(modelType, f)[n..];
    assert g == FieldKey(modelType, g)[n..];
  }

  /** Across model types the field keys can collide: the separator may occur in the names. */
  lemma FieldKeyCollision()
    ensures FieldKey("a_FIELD_b", "c") == FieldKey("a", "b_FIELD_c")
  {
  }
}
