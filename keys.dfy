/** The Redis keys the handlers read and write: a fixed prefix followed by
    the decimal text of a user or file id. */
module Keys {
  import opened Decimal

  /** The listing cache of one user (fileupload/retrieve.go). */
  function ListingKey(userId: int): string {
    "user_files:" + IntToString(userId)
  }

  /** The metadata record cached by an upload (fileupload/upload.go). */
  function MetadataKey(fileId: int): string {
    "file_metadata:" + IntToString(fileId)
  }

  /** The share URL cache of one file (fileupload/retrieve.go). */
  function ShareKey(fileId: int): string {
    "shared_file:" + IntToString(fileId)
  }

  lemma PrefixedInjective(prefix: string, i: int, j: int)
    requires prefix + IntToString(i) == prefix + IntToString(j)
    ensures i == j
  {
    assert IntToString(i) == (prefix + IntToString(i))[|prefix|..];
    assert IntToString(j) == (prefix + IntToString(j))[|prefix|..];
    IntToStringInjective(i, j);
  }

  /** Each kind of key names one id, and keys of different kinds never
      coincide: an upload's metadata write cannot touch a listing, nor
      a share entry. */
  lemma KeysDistinct(i: int, j: int)
    ensures ListingKey(i) == ListingKey(j) ==> i == j
    ensures MetadataKey(i) == MetadataKey(j) ==> i == j
    ensures ShareKey(i) == ShareKey(j) ==> i == j
    ensures MetadataKey(i) != ListingKey(j)
    ensures MetadataKey(i) != ShareKey(j)
    ensures ShareKey(i) != ListingKey(j)
  {
    if ListingKey(i) == ListingKey(j) { PrefixedInjective("user_files:", i, j); }
    if MetadataKey(i) == MetadataKey(j) { PrefixedInjective("file_metadata:", i, j); }
    if ShareKey(i) == ShareKey(j) { PrefixedInjective("shared_file:", i, j); }
    assert MetadataKey(i)[0] == 'f' && ListingKey(j)[0] == 'u' && ShareKey(j)[0] == 's';
  }
}
