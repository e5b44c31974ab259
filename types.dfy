/** Values shared by the whole model: cloud records, filters, errors and the calls a cloud double observes. */
module Types {

  datatype Option<T> = None | Some(value: T)

  /** A JSON scalar as the network service carries it in records, filters and request bodies. */
  datatype Value = Str(s: string) | Int(i: int) | Bool(b: bool)

  /** A cloud record (a port, router, network, subnet or server): an id, a display name and its other fields. */
  datatype Resource = Resource(id: nat, name: string, attrs: map<string, Value>)

  /** Equality filters passed as keyword arguments to a listing call. */
  type Filter = map<string, Value>

  /** The network service's records, keyed by the plural resource type its listing call is named after. */
  type Store = map<string, seq<Resource>>

  /** What a call can raise. */
  datatype Error =
    | InUse                                                    // NetworkInUseClient: a dependent still exists
    | NotFound                                                 // the record to delete is gone
    | Cardinality(objType: string, filter: Filter, count: nat) // "expected exactly one" from cosmo_get
    | MissingCall(call: string)                                // getattr on a client call that does not exist
    | DuplicateKeyword(key: string)                            // a keyword argument given twice
    | Other(reason: string)                                    // any other failure of the service

  datatype Result<T> = Ok(value: T) | Err(error: Error)

  /** A deletion request, as the cloud double records it. */
  datatype Call = NeutronDelete(objType: string, id: nat) | NovaDelete(id: nat)

  lemma AppendAssoc<T>(a: seq<T>, b: seq<T>, c: seq<T>)
    ensures (a + b) + c == a + (b + c)
  {
  }

  /** A prefix of a + b at least as long as a is a followed by a prefix of b. */
  lemma PrefixOfJoin<T>(a: seq<T>, b: seq<T>, m: nat)
    requires |a| <= m <= |a| + |b|
    ensures (a + b)[..m] == a + b[..m - |a|]
  {
  }
}
