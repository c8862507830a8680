/** The abstract file system both operations work on: a flat directory is a
    finite map from file name to the file's bytes.  Only entries of the map
    are files, so sub-directories of the real directory are simply absent. */
module Files {

  type Bytes = seq<bv8>

  type Dir = map<string, Bytes>

  /** The size the source fixes for every chunk: 25 MiB. The operations take
      the chunk size as a parameter; this is the value the source passes. */
  const CHUNK_SIZE: nat := 25 * 1024 * 1024

  datatype Option<T> = None | Some(value: T)

  /** Two directories with the same names and the same contents are equal. */
  lemma MapExtensional(a: Dir, b: Dir)
    requires forall c :: c in a <==> c in b
    requires forall c | c in a :: a[c] == b[c]
    ensures a == b
  {
  }
}
