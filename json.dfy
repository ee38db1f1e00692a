/** Dotted-path lookup of openclaw-rs/src/json.rs (`json_get`) over an
    already parsed JSON value, and the placeholder schema check. Parsing and
    printing are serde_json's and are not part of this model: the lookup
    takes the parsed tree and returns the value it reaches. */
module Json {
  import opened Wrappers
  import opened Machine

  /** A parsed `serde_json::Value`. Numbers keep their text; their arithmetic
      plays no part in a lookup. */
  datatype Value =
    | Null
    | Bool(b: bool)
    | Number(text: string)
    | String(s: string)
    | Array(items: seq<Value>)
    | Object(fields: map<string, Value>)

  /** The four ways a lookup fails, each with the message's argument. */
  datatype JsonError =
    | PathNotFound(key: string)
    | InvalidArrayIndex(key: string)
    | IndexOutOfBounds(index: nat)
    | NotTraversable

  // ---------------------------------------------------------------------------
  // Splitting the path

  /** `s.split(sep)`: the pieces between separators, empty pieces included;
      there is always at least one. */
  function Split(s: string, sep: char): (r: seq<string>)
    ensures |r| >= 1
    ensures forall i :: 0 <= i < |r| ==> sep !in r[i]
    decreases |s|
  {
    if s == [] then [""]
    else
      var rest := Split(s[1..], sep);
      if s[0] == sep then [""] + rest
      else [[s[0]] + rest[0]] + rest[1..]
  }

  /** The pieces put back together with `sep` between them. */
  function Join(parts: seq<string>, sep: char): string
    requires |parts| >= 1
    decreases |parts|
  {
    if |parts| == 1 then parts[0] else parts[0] + [sep] + Join(parts[1..], sep)
  }

  /** Splitting loses nothing: joining the pieces gives the path back. */
  lemma {:induction false} JoinSplit(s: string, sep: char)
    ensures Join(Split(s, sep), sep) == s
    decreases |s|
  {
    if s != [] {
      var rest := Split(s[1..], sep);
      JoinSplit(s[1..], sep);
      if s[0] == sep {
        assert ([""] + rest)[1..] == rest;
      } else {
        var r := [[s[0]] + rest[0]] + rest[1..];
        if |rest| == 1 {
          assert r == [[s[0]] + rest[0]];
        } else {
          assert r[1..] == rest[1..];
          assert Join(rest, sep) == rest[0] + [sep] + Join(rest[1..], sep);
        }
        assert s == [s[0]] + s[1..];
      }
    }
  }

  /** A separator-free prefix joins the first piece of what follows it. */
  lemma {:induction false} SplitFreePrefix(a: string, tail: string, sep: char)
    requires sep !in a
    ensures Split(a + tail, sep) == [a + Split(tail, sep)[0]] + Split(tail, sep)[1..]
    decreases |a|
  {
    if a != [] {
      assert (a + tail)[0] == a[0] && (a + tail)[1..] == a[1..] + tail;
      assert a[0] != sep;
      SplitFreePrefix(a[1..], tail, sep);
      var t := Split(tail, sep);
      assert [a[0]] + (a[1..] + t[0]) == a + t[0];
    } else {
      var t := Split(tail, sep);
      assert a + tail == tail && a + t[0] == t[0];
      assert t == [t[0]] + t[1..];
    }
  }

  /** Splitting undoes joining separator-free pieces. */
  lemma {:induction false} SplitJoin(parts: seq<string>, sep: char)
    requires |parts| >= 1
    requires forall i :: 0 <= i < |parts| ==> sep !in parts[i]
    ensures Split(Join(parts, sep), sep) == parts
    decreases |parts|
  {
    if |parts| == 1 {
      SplitFreePrefix(parts[0], "", sep);
      assert parts[0] + "" == parts[0];
    } else {
      var tail := Join(parts[1..], sep);
      SplitJoin(parts[1..], sep);
      SplitFreePrefix(parts[0], [sep] + tail, sep);
      assert parts[0] + [sep] + tail == parts[0] + ([sep] + tail);
      assert ([sep] + tail)[0] == sep && ([sep] + tail)[1..] == tail;
      var t := Split([sep] + tail, sep);
      assert t == [""] + parts[1..];
      assert parts[0] + t[0] == parts[0] && t[1..] == parts[1..];
      assert parts == [parts[0]] + parts[1..];
    }
  }

  // ---------------------------------------------------------------------------
  // Array indices: `key.parse::<usize>()`

  predicate IsDigit(c: char)
  {
    '0' <= c <= '9'
  }

  predicate AllDigits(s: string)
  {
    forall i :: 0 <= i < |s| ==> IsDigit(s[i])
  }

  /** The number a string of decimal digits denotes. */
  function DigitsValue(s: string): nat
    requires AllDigits(s)
  {
    if s == [] then 0
    else DigitsValue(s[..|s| - 1]) * 10 + (s[|s| - 1] as int - '0' as int)
  }

  /** Rust's `usize::from_str` on a 64-bit target: one optional leading `+`,
      then at least one ASCII digit and nothing else, denoting at most
      `usize::MAX`. */
  function ParseIndex(s: string): (r: Option<nat>)
    ensures r.Some? ==> r.value <= USIZE_MAX
  {
    var digits := if |s| > 1 && s[0] == '+' then s[1..] else s;
    if |digits| == 0 || !AllDigits(digits) then None
    else
      var v := DigitsValue(digits);
      if v <= USIZE_MAX then Some(v) else None
  }

  /** The decimal text of `n`, as `n.to_string()` writes it. */
  function ShowIndex(n: nat): (s: string)
    ensures |s| >= 1 && AllDigits(s)
  {
    if n < 10 then ['0' + n as char]
    else ShowIndex(n / 10) + ['0' + (n % 10) as char]
  }

  lemma {:induction false} DigitsValueOfShow(n: nat)
    ensures DigitsValue(ShowIndex(n)) == n
  {
    if n >= 10 {
      DigitsValueOfShow(n / 10);
      var s := ShowIndex(n);
      assert s[..|s| - 1] == ShowIndex(n / 10);
    }
  }

  /** Every index `usize` can hold parses back from its decimal text. */
  lemma ParseShowIndex(n: nat)
    requires n <= USIZE_MAX
    ensures ParseIndex(ShowIndex(n)) == Some(n)
  {
    DigitsValueOfShow(n);
  }

  /** A segment holding anything but digits (after one optional leading `+`)
      is not an index. */
  lemma NonDigitIsNoIndex(s: string, i: nat)
    requires i < |s| && !IsDigit(s[i]) && !(i == 0 && s[0] == '+' && |s| > 1)
    ensures ParseIndex(s).None?
  {
    if |s| > 1 && s[0] == '+' {
      assert s[1..][i - 1] == s[i];
    }
  }

  // ---------------------------------------------------------------------------
  // The walk

  /** One segment: an object looks the segment up as a key, an array parses
      it as an index that must be in range, anything else cannot be entered. */
  function Step(current: Value, key: string): Result<Value, JsonError>
  {
    match current
    case Object(fields) =>
      if key in fields then Ok(fields[key]) else Err(PathNotFound(key))
    case Array(items) =>
      (match ParseIndex(key)
       case None => Err(InvalidArrayIndex(key))
       case Some(index) => if index < |items| then Ok(items[index]) else Err(IndexOutOfBounds(index)))
    case _ => Err(NotTraversable)
  }

  /** One step per segment, stopping at the first failure. */
  function Walk(current: Value, keys: seq<string>): Result<Value, JsonError>
    decreases |keys|
  {
    if keys == [] then Ok(current)
    else
      match Step(current, keys[0])
      case Err(e) => Err(e)
      case Ok(next) => Walk(next, keys[1..])
  }

  /** Walking `p + q` is walking `p`, then walking `q` from where `p` ended. */
  lemma {:induction false} WalkAppend(v: Value, p: seq<string>, q: seq<string>)
    ensures Walk(v, p + q) == match Walk(v, p) case Err(e) => Err(e) case Ok(w) => Walk(w, q)
    decreases |p|
  {
    if p == [] {
      assert p + q == q;
    } else {
      assert (p + q)[0] == p[0] && (p + q)[1..] == p[1..] + q;
      match Step(v, p[0])
      case Err(e) =>
      case Ok(next) => WalkAppend(next, p[1..], q);
    }
  }

  /** The tree in which `leaf` sits under the keys `keys`, one object per key. */
  function Nest(keys: seq<string>, leaf: Value): Value
    decreases |keys|
  {
    if keys == [] then leaf else Object(map[keys[0] := Nest(keys[1..], leaf)])
  }

  /** Walking the keys of a nest reaches its leaf. */
  lemma {:induction false} WalkNest(keys: seq<string>, leaf: Value)
    ensures Walk(Nest(keys, leaf), keys) == Ok(leaf)
    decreases |keys|
  {
    if keys != [] {
      WalkNest(keys[1..], leaf);
    }
  }

  /** An in-range index written in decimal selects that element. */
  lemma ArrayIndexStep(items: seq<Value>, i: nat)
    requires i < |items| && i <= USIZE_MAX
    ensures Step(Array(items), ShowIndex(i)) == Ok(items[i])
  {
    ParseShowIndex(i);
  }

  /** `json_get(input, path)` on the parsed `input`: the cursor starts at the
      root and takes one step per `.`-separated segment of `path`; the first
      failing step's error is returned. */
  method JsonGet(root: Value, path: string) returns (r: Result<Value, JsonError>)
    ensures r == Walk(root, Split(path, '.'))
  {
    var keys := Split(path, '.');
    var current := root;
    var i := 0;
    while i < |keys|
      invariant i <= |keys|
      invariant Walk(root, keys) == Walk(current, keys[i..])
    {
      var key := keys[i];
      assert keys[i..][0] == key && keys[i..][1..] == keys[i + 1..];
      match current {
        case Object(fields) =>
          if key !in fields {
            return Err(PathNotFound(key));
          }
          current := fields[key];
        case Array(items) =>
          var parsed := ParseIndex(key);
          if parsed.None? {
            return Err(InvalidArrayIndex(key));
          }
          var index := parsed.value;
          if index >= |items| {
            return Err(IndexOutOfBounds(index));
          }
          current := items[index];
        case _ =>
          return Err(NotTraversable);
      }
      i := i + 1;
    }
    return Ok(current);
  }

  /** A path written as `k1.k2. ... .kn`, with no `.` inside a key, reaches
      the value stored under those keys. */
  lemma JsonGetNestedPath(keys: seq<string>, leaf: Value)
    requires |keys| >= 1
    requires forall i :: 0 <= i < |keys| ==> '.' !in keys[i]
    ensures Walk(Nest(keys, leaf), Split(Join(keys, '.'), '.')) == Ok(leaf)
  {
    SplitJoin(keys, '.');
    WalkNest(keys, leaf);
  }

  /** An empty path is the single empty segment: the root must be an object
      with an entry under the empty key. */
  lemma EmptyPath(root: Value)
    ensures Walk(root, Split("", '.')) == Step(root, "")
  {
  }

  /** `json_validate_schema(input, schema)`: a placeholder that accepts every
      input against every schema. */
  function JsonValidateSchema(input: string, schema: string): (r: Result<bool, JsonError>)
    ensures r == Ok(true)
  {
    Ok(true)
  }
}
