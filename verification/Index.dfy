/** What the program asks of an index: a finite map ordered by its keys. AvlMaps proves that a tree of
    elements told apart by a key answers as such a map; the modules above the tree use the map. */
module Index {
  import opened Options

  datatype Access<K, V> = Put(key: K, value: V) | Drop(key: K) | Get(key: K) | Last

  /** The caller puts values only under keys the index does not have. */
  predicate Legal<K(==), V>(m: map<K, V>, a: Access<K, V>) {
    a.Put? ==> a.key !in m
  }

  function After<K, V>(m: map<K, V>, a: Access<K, V>): map<K, V> {
    match a
    case Put(key, value) => m[key := value]
    case Drop(key) => m - {key}
    case Get(_) => m
    case Last => m
  }

  /** `x` is the entry of the index under `key`, if there is one. */
  predicate Entry<K(==), V(==)>(m: map<K, V>, key: K, x: Option<(K, V)>) {
    match x
    case None => key !in m
    case Some(e) => key in m && e == (key, m[key])
  }

  /** Dropping and getting give the entry under the key, Last the entry with the greatest key. */
  ghost predicate Answers<K, V>(m: map<K, V>, a: Access<K, V>, x: Option<(K, V)>, cmp: (K, K) -> int) {
    match a
    case Put(_, _) => x == None
    case Drop(key) => Entry(m, key, x)
    case Get(key) => Entry(m, key, x)
    case Last =>
      match x
      case None => m == map[]
      case Some(e) => Entry(m, e.0, x) && forall k :: k in m ==> cmp(k, e.0) <= 0
  }
}
