/** BSON values and documents, as far as the models need them. */
module Bson {

  /** A value: its place in the order of CompareBsonValueAndType (values that compare equal share
      one; any countable total preorder embeds in the reals), and its content. */
  datatype Ranked = Ranked(rank: real, content: string)

  datatype FlatField = FlatField(key: string, value: Ranked)

  /** A document is its fields in order. */
  type FlatDoc = seq<FlatField>

  const ID: string := "_id"

  predicate DistinctKeys(d: FlatDoc) {
    forall i, j :: 0 <= i < j < |d| ==> d[i].key != d[j].key
  }

  predicate Distinct(keys: seq<string>) {
    forall i, j :: 0 <= i < j < |keys| ==> keys[i] != keys[j]
  }
}
