/** `MapUtils.defaultGet`: a map read that falls back to a default value. */
module MapUtils {
  import opened Results

  /** `defaultGet(map, key, defaultValue)`. A Java map may hold `null` values
      (`None`); a missing key and a `null` value both give the default. */
  function DefaultGet<K, T>(m: map<K, Option<T>>, key: K, defaultValue: T): (r: T)
    ensures key in m && m[key].Some? ==> r == m[key].value
    ensures key !in m || m[key].None? ==> r == defaultValue
  {
    if key in m && m[key].Some? then m[key].value else defaultValue
  }

  /** A map that holds no `null` values, as every store map in the sessions store. */
  function NonNull<K, T>(m: map<K, T>): (r: map<K, Option<T>>)
    ensures r.Keys == m.Keys
    ensures forall k :: k in m ==> r[k] == Some(m[k])
  {
    map k | k in m :: Some(m[k])
  }

  /** On a map without `null` values, `defaultGet` is the stored value when the key
      is present, and the default exactly when it is absent. */
  lemma DefaultGetNonNull<K, T>(m: map<K, T>, key: K, defaultValue: T)
    ensures DefaultGet(NonNull(m), key, defaultValue) == if key in m then m[key] else defaultValue
  {
  }
}
