/** The part of nlohmann::json's behaviour that the manifest reader and the
    version-file updates rely on. Text parsing and dump(4) are not modelled;
    a document is the value they produce and consume. */
module Json {
  import opened Wrappers
  import opened Utils

  /** A JSON value. Objects use nlohmann's default std::map, so they are
      keyed maps here. Floating-point numbers are not modelled. */
  datatype Json =
    | Null
    | Bool(b: bool)
    | Int(i: int)
    | Str(s: string)
    | Arr(elems: seq<Json>)
    | Obj(members: map<string, Json>)

  /** nlohmann's type_error identifiers for the three conversions used. */
  const GetTypeError := JsonTypeError(302)
  const IndexTypeError := JsonTypeError(305)
  const InsertTypeError := JsonTypeError(309)

  /** The two's-complement narrowing of static_cast<int> to 32 bits. */
  function Int32(i: int): (r: int)
    ensures -0x8000_0000 <= r < 0x8000_0000
    ensures (r - i) % 0x1_0000_0000 == 0
    ensures -0x8000_0000 <= i < 0x8000_0000 ==> r == i
  {
    (i + 0x8000_0000) % 0x1_0000_0000 - 0x8000_0000
  }

  /** j.get<int>(): numbers and booleans convert, anything else throws. */
  function GetInt(j: Json): (r: Result<int, Error>)
    ensures r.Success? <==> j.Int? || j.Bool?
    ensures r.Failure? ==> r.error == GetTypeError
    ensures j.Int? ==> r == Success(Int32(j.i))
    ensures j.Bool? ==> r == Success(if j.b then 1 else 0)
  {
    match j
    case Int(i) => Success(Int32(i))
    case Bool(b) => Success(if b then 1 else 0)
    case _ => Failure(GetTypeError)
  }

  /** Conversion of a value to std::string: only strings convert. */
  function GetString(j: Json): (r: Result<string, Error>)
    ensures r.Success? <==> j.Str?
    ensures r.Success? ==> r.value == j.s
    ensures r.Failure? ==> r.error == GetTypeError
  {
    if j.Str? then Success(j.s) else Failure(GetTypeError)
  }

  /** Reading j[key] through the non-const operator[]: a null value acts as an
      empty object, a missing key yields null, any other kind throws. */
  function Member(j: Json, key: string): (r: Result<Json, Error>)
    ensures r.Success? <==> j.Null? || j.Obj?
    ensures r.Failure? ==> r.error == IndexTypeError
    ensures r.Success? && !(j.Obj? && key in j.members) ==> r.value == Null
    ensures j.Obj? && key in j.members ==> r == Success(j.members[key])
  {
    match j
    case Null => Success(Null)
    case Obj(m) => Success(if key in m then m[key] else Null)
    case _ => Failure(IndexTypeError)
  }

  /** j[key] = v: a null value becomes an object first, any other
      non-object throws. */
  function WithMember(j: Json, key: string, v: Json): (r: Result<Json, Error>)
    ensures r.Success? <==> j.Null? || j.Obj?
    ensures r.Failure? ==> r.error == IndexTypeError
    ensures r.Success? ==> r.value.Obj? && r.value.members.Keys == (if j.Obj? then j.members.Keys else {}) + {key}
  {
    match j
    case Null => Success(Obj(map[key := v]))
    case Obj(m) => Success(Obj(m[key := v]))
    case _ => Failure(IndexTypeError)
  }

  /** Setting a member and reading it back gives the value set; every other
      member is unchanged. */
  lemma WithMemberThenMember(j: Json, key: string, v: Json, other: string)
    requires WithMember(j, key, v).Success?
    ensures Member(WithMember(j, key, v).value, key) == Success(v)
    ensures other != key ==> Member(WithMember(j, key, v).value, other) == Member(j, other)
  {
  }

  /** Setting a member twice keeps only the second value. */
  lemma WithMemberTwice(j: Json, key: string, v: Json, w: Json)
    requires WithMember(j, key, v).Success?
    ensures WithMember(WithMember(j, key, v).value, key, w) == WithMember(j, key, w)
  {
    match j
    case Null =>
      assert map[key := v][key := w] == map[key := w];
    case Obj(m) =>
      assert m[key := v][key := w] == m[key := w];
  }

  /** An object written as an initializer list of key/value pairs: the
      library emplaces them in order, so the first pair with a key wins. */
  function ObjectOf(pairs: seq<(string, Json)>): map<string, Json>
    decreases |pairs|
  {
    if |pairs| == 0 then map[]
    else ObjectOf(pairs[1..])[pairs[0].0 := pairs[0].1]
  }

  /** The object has exactly the keys of the pairs. */
  lemma {:induction false} ObjectOfKeys(pairs: seq<(string, Json)>)
    ensures ObjectOf(pairs).Keys == set p <- pairs :: p.0
    decreases |pairs|
  {
    if |pairs| > 0 {
      ObjectOfKeys(pairs[1..]);
      assert forall p <- pairs :: p == pairs[0] || p in pairs[1..];
    }
  }

  /** Each key maps to the value of its first pair. */
  lemma {:induction false} ObjectOfFirstWins(pairs: seq<(string, Json)>, i: nat)
    requires i < |pairs| && forall j :: 0 <= j < i ==> pairs[j].0 != pairs[i].0
    ensures pairs[i].0 in ObjectOf(pairs) && ObjectOf(pairs)[pairs[i].0] == pairs[i].1
    decreases i
  {
    if i > 0 {
      ObjectOfFirstWins(pairs[1..], i - 1);
    }
  }

  /** Reading j[idx] through the non-const operator[]: a null value becomes
      an array, an index past the end reads the null the array is padded
      with, any other kind throws. */
  function Element(j: Json, idx: nat): (r: Result<Json, Error>)
    ensures r.Success? <==> j.Null? || j.Arr?
    ensures r.Failure? ==> r.error == IndexTypeError
    ensures r.Success? && !(j.Arr? && idx < |j.elems|) ==> r.value == Null
    ensures j.Arr? && idx < |j.elems| ==> r == Success(j.elems[idx])
  {
    match j
    case Null => Success(Null)
    case Arr(e) => Success(if idx < |e| then e[idx] else Null)
    case _ => Failure(IndexTypeError)
  }

  /** j[idx] = v: a null value becomes an array, an array too short is
      padded with nulls up to idx, any other kind throws. */
  function WithElement(j: Json, idx: nat, v: Json): (r: Result<Json, Error>)
    ensures r.Success? <==> j.Null? || j.Arr?
    ensures r.Success? ==> r.value.Arr?
    ensures r.Failure? ==> r.error == IndexTypeError
  {
    match j
    case Null => Success(Arr(seq(idx, _ => Null) + [v]))
    case Arr(e) =>
      if idx < |e| then Success(Arr(e[idx := v]))
      else Success(Arr(e + seq(idx - |e|, _ => Null) + [v]))
    case _ => Failure(IndexTypeError)
  }

  /** Setting an element and reading it back gives the value set; every
      other element is unchanged; the array grows only as far as idx. */
  lemma WithElementThenElement(j: Json, idx: nat, v: Json, other: nat)
    requires WithElement(j, idx, v).Success?
    ensures Element(WithElement(j, idx, v).value, idx) == Success(v)
    ensures other != idx ==> Element(WithElement(j, idx, v).value, other) == Element(j, other)
    ensures |WithElement(j, idx, v).value.elems| == if j.Arr? && idx < |j.elems| then |j.elems| else idx + 1
  {
  }
}
