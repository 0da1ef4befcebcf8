/** A dict that several calls are handed and fill. */
module SharedMaps {

  class SharedMap<K(==), V> {
    var entries: map<K, V>

    constructor ()
      ensures entries == map[]
    {
      entries := map[];
    }
  }
}
