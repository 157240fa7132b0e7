/** Links in content that was read for logging: the keys that the decoder writes, and how they are found again. */
module ProcessorLinks {
  import opened Data
  import opened Links
  import opened Processor
  import opened ProcessorDicts
  import opened ProcessorValues
  import opened Wrappers

  /** The field is a link, and no quantity. */
  predicate IsLinkField(o: Options) {
    o.objtype.Some? && o.unit.None?
  }

  /** Keys of decoded fields: with the unit in square brackets or the type of a link in angle brackets, for logging. */
  lemma DecodedKeyExactly(pass: Pass, f: Field, key: string)
    requires pass.Decoding?
    ensures var o, newKey := f.options, NewKey(pass, f, key);
            if pass.mode != Logged || (o.unit.None? && o.objtype.None?) then newKey == key
            else
              && |newKey| > |key| + 1 && newKey[..|key|] == key
              && newKey[|key|] == (if o.unit.Some? then '[' else '<')
              && newKey[|newKey| - 1] == (if o.unit.Some? then ']' else '>')
              && newKey[|key| + 1..|newKey| - 1] == if o.unit.Some? then UserUnit(pass.units, o.unit.value)
                                                     else o.objtype.value
  {
    hide UserUnit;
  }

  /** `resolve_data_ids` takes the value of a decoded field for an ID exactly if it was read for logging as a link. */
  lemma LoggedLinksAreFound(pass: Pass, f: Field, key: string, v: Value)
    requires pass.Decoding? && IsPlainName(key)
    ensures HasLinkKey(Dict([Entry(NewKey(pass, f, key), v)]), 0) <==> pass.mode == Logged && IsLinkField(f.options)
  {
    hide NewKey;
    DecodedKeyExactly(pass, f, key);
  }
}
