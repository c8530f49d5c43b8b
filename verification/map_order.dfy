/** What the model assumes of `HashMap::iter`: it visits every key exactly once, in an
    order nobody may rely on. Writers that iterate a map take that order as input. */
module MapOrder {

  /** `ks` lists the keys of `m`, each exactly once. */
  ghost predicate IsKeyOrder<V>(ks: seq<string>, m: map<string, V>) {
    && (forall i, j :: 0 <= i < j < |ks| ==> ks[i] != ks[j])
    && (forall i :: 0 <= i < |ks| ==> ks[i] in m)
    && (forall k :: k in m ==> k in ks)
  }
}
