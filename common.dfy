/** Values shared by every stage handler: optional fields, the errors an AWS
    client call can raise, parsed JSON bodies, and the object store (S3) as
    one invocation sees it. */
module Common {

  datatype Option<+T> = None | Some(value: T)
  {
    function GetOr(default: T): T
    {
      match this
      case Some(v) => v
      case None => default
    }
  }

  /** What an AWS client call raises: a botocore `ClientError`, carrying the
      service's error code (`"404"`, `"NoSuchKey"`, `"AccessDenied"`, ...) and
      its rendered text `str(e)`, or any other exception with its text. */
  datatype Fault = ClientError(code: string, message: string) | OtherError(message: string)

  /** The outcome of one external call. */
  datatype Result<+T> = Ok(value: T) | Err(fault: Fault)

  /** What `json.loads` of an event body yields as far as a handler can use
      it: a `JSONDecodeError`, a value the handler's next access raises on
      (for most handlers anything but a JSON object), or what it reads. */
  datatype Parsed<+T> = BadJson | NotAnObject | Decoded(value: T)

  /** Python truthiness of an optional string: `None` and `""` are false. */
  predicate Truthy(s: Option<string>)
  {
    s.Some? && s.value != ""
  }

  /** The object store as one invocation sees it: the objects of the bucket by
      key, the keys on which every read (`head_object`, `get_object`) fails
      with a given fault, and the keys on which every write (`put_object`)
      does (permissions, throttling, ...). */
  datatype Store = Store(objects: map<string, string>, readFaults: map<string, Fault>, writeFaults: map<string, Fault>)

  /** The code S3 gives `head_object` on a missing key. */
  const NotFoundCode: string := "404"

  /** The outcome a handler reads as "the object does not exist". */
  predicate IsNotFound<T>(r: Result<T>)
  {
    r.Err? && r.fault.ClientError? && r.fault.code == NotFoundCode
  }

  /** botocore refuses an empty `Key` before sending the request. */
  const EmptyKeyFault: Fault :=
    OtherError("Parameter validation failed: Invalid length for parameter Key, value: 0, valid min length: 1")

  /** `head_object(Bucket, Key)`: succeeds exactly on a stored, non-faulted key;
      a missing key is a `ClientError` with code 404. */
  function Head(st: Store, key: string): (r: Result<()>)
    ensures r.Ok? <==> key != "" && key !in st.readFaults && key in st.objects
    ensures key != "" && key !in st.readFaults && key !in st.objects ==> IsNotFound(r)
  {
    if key == "" then Err(EmptyKeyFault)
    else if key in st.readFaults then Err(st.readFaults[key])
    else if key in st.objects then Ok(())
    else Err(ClientError(NotFoundCode, "An error occurred (404) when calling the HeadObject operation: Not Found"))
  }

  /** `get_object(Bucket, Key)['Body'].read()`: the stored content, or the
      fault; a missing key is a `ClientError` with code `NoSuchKey`. */
  function Get(st: Store, key: string): (r: Result<string>)
    ensures r.Ok? <==> Head(st, key).Ok?
    ensures r.Ok? ==> r.value == st.objects[key]
  {
    if key == "" then Err(EmptyKeyFault)
    else if key in st.readFaults then Err(st.readFaults[key])
    else if key in st.objects then Ok(st.objects[key])
    else Err(ClientError("NoSuchKey", "An error occurred (NoSuchKey) when calling the GetObject operation: The specified key does not exist."))
  }

  /** `put_object(Bucket, Key, Body)`: on success the new store, in which the
      key reads back as the body and every other key reads as before. */
  function Put(st: Store, key: string, body: string): (r: Result<Store>)
    ensures r.Ok? <==> key != "" && key !in st.writeFaults
    ensures r.Err? ==> r.fault == (if key == "" then EmptyKeyFault else st.writeFaults[key])
    ensures r.Ok? ==> r.value.readFaults == st.readFaults && r.value.writeFaults == st.writeFaults
    ensures r.Ok? && key !in st.readFaults ==> Get(r.value, key) == Ok(body) && Head(r.value, key).Ok?
    ensures r.Ok? ==> forall k :: k != key ==> Get(r.value, k) == Get(st, k) && Head(r.value, k) == Head(st, k)
    ensures r.Ok? ==> r.value.objects == st.objects[key := body]
  {
    if key == "" then Err(EmptyKeyFault)
    else if key in st.writeFaults then Err(st.writeFaults[key])
    else Ok(Store(st.objects[key := body], st.readFaults, st.writeFaults))
  }
}
