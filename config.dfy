/**
 * The key/value store of hnbase/config.h. Values are kept as strings under
 * absolute keys ("/dir/key"); a key that does not start with '/' is taken
 * relative to the current path. A write is first offered to the
 * valueChanging slots, any of which can veto it. Once the value is stored,
 * the write is announced to the valueChanged slots.
 *
 * The slots are code outside the model. What the valueChanging slots answer
 * is a parameter, and the valueChanged notifications are recorded in
 * `changed`. boost::lexical_cast is modelled for the two value types used
 * here: strings, which are stored as they are, and uint32_t.
 */
module Config {
  import opened Wrappers
  import opened Streams
  import opened Utils

  // ---------------------------------------------------------- lexical_cast

  predicate AllDigits(s: string) {
    forall i :: 0 <= i < |s| ==> IsDecChar(s[i])
  }

  /** boost::lexical_cast<uint32_t>: a non-empty run of decimal digits whose value fits in 32 bits. */
  function CastU32(s: string): (r: Option<nat>)
    ensures r.Some? ==> r.value < U32 && s != [] && AllDigits(s)
  {
    if s != [] && AllDigits(s) && DigitsValue(s, 10) < U32 then Some(DigitsValue(s, 10)) else None
  }

  /** lexical_cast<std::string> of a uint32_t is read back by lexical_cast<uint32_t>. */
  lemma CastDecimal(n: nat)
    requires n < U32
    ensures CastU32(Decimal(n)) == Some(n)
  {
    DecimalValue(n);
  }

  /** A string with a character that is not a decimal digit does not convert. */
  lemma CastRejects(s: string, i: nat)
    requires i < |s| && !IsDecChar(s[i])
    ensures CastU32(s) == None
  {
  }

  // ---------------------------------------------------------------- keys

  /** The key a read, write or erase works on: absolute keys as given, relative ones under the path; the key may not be empty. */
  function Absolute(path: string, key: string): (r: Result<string>)
    ensures r.Err? <==> key == []
    ensures r.Err? ==> r.msg == CheckFailed("key.size()")
    ensures r.Ok? ==> r.value == (if key[0] == '/' then key else path + key)
  {
    if key == [] then Err(CheckFailed("key.size()"))
    else if key[0] != '/' then Ok(path + key)
    else Ok(key)
  }

  /** A current path as setPath leaves it: it starts and ends with '/'. */
  predicate IsPath(path: string) {
    |path| > 0 && path[0] == '/' && path[|path| - 1] == '/'
  }

  /** setPath(dir): an absolute dir replaces the path, a relative one is appended; a '/' is added unless there is one. */
  function NewPath(cur: string, dir: string): (r: Result<string>)
    ensures r.Err? <==> dir == []
    ensures r.Ok? && IsPath(cur) ==> IsPath(r.value)
    ensures r.Ok? && dir[0] == '/' ==> dir <= r.value
    ensures r.Ok? && dir[0] != '/' ==> cur + dir <= r.value
  {
    if dir == [] then Err(CheckFailed("dir.size()"))
    else
      var p := if dir[0] == '/' then dir else cur + dir;
      Ok(if p[|p| - 1] != '/' then p + "/" else p)
  }

  /** Under a current path every key resolves to an absolute key. */
  lemma AbsoluteIsAbsolute(path: string, key: string)
    requires IsPath(path) && key != []
    ensures Absolute(path, key).value[0] == '/'
  {
  }

  /** A relative key names the same value as its absolute spelling, whatever path that is read under. */
  lemma RelativeIsAbsolute(path: string, other: string, key: string)
    requires IsPath(path) && key != [] && key[0] != '/'
    ensures Absolute(other, path + key) == Absolute(path, key)
  {
  }

  // ----------------------------------------------------------------- read

  /** read(key, def): the stored value converted by cast; the default when the key is absent or the value does not convert. */
  function ReadValue<C>(values: map<string, string>, path: string, key: string, def: C, cast: string -> Option<C>): (r: Result<C>)
    ensures r.Err? <==> key == []
  {
    match Absolute(path, key)
    case Err(e) => Err(e)
    case Ok(full) =>
      if full in values && cast(values[full]).Some? then Ok(cast(values[full]).value) else Ok(def)
  }

  /** A key that is not stored reads as the default. */
  lemma ReadMissing<C>(values: map<string, string>, path: string, key: string, def: C, cast: string -> Option<C>)
    requires key != [] && Absolute(path, key).value !in values
    ensures ReadValue(values, path, key, def, cast) == Ok(def)
  {
  }

  /** A stored uint32_t that does not convert reads as the default. */
  lemma ReadUnconvertible(values: map<string, string>, path: string, key: string, def: nat)
    requires key != [] && Absolute(path, key).value in values
    requires CastU32(values[Absolute(path, key).value]) == None
    ensures ReadValue(values, path, key, def, CastU32) == Ok(def)
  {
  }

  /** A uint32_t written under a key is what read<uint32_t> then gives, under any spelling of the key. */
  lemma WrittenIsRead(values: map<string, string>, path: string, key: string, n: nat, def: nat, path': string, key': string)
    requires n < U32 && key != [] && key' != []
    requires Absolute(path', key') == Absolute(path, key)
    ensures ReadValue(values[Absolute(path, key).value := Decimal(n)], path', key', def, CastU32) == Ok(n)
  {
    CastDecimal(n);
  }

  /** After erasing a key it reads as the default, and every other key reads as before. */
  lemma ErasedReads<C>(values: map<string, string>, path: string, key: string, path': string, key': string, def: C, cast: string -> Option<C>)
    requires key != [] && key' != []
    ensures Absolute(path', key') == Absolute(path, key) ==>
      ReadValue(values - {Absolute(path, key).value}, path', key', def, cast) == Ok(def)
    ensures Absolute(path', key') != Absolute(path, key) ==>
      ReadValue(values - {Absolute(path, key).value}, path', key', def, cast) == ReadValue(values, path', key', def, cast)
  {
  }

  // ----------------------------------------------------------------- store

  class Config {
    var values: map<string, string>
    var curPath: string
    /** What the valueChanged slots were told, in order: the key without its leading '/', and the value. */
    var changed: seq<(string, string)>

    predicate Valid()
      reads this
    {
      IsPath(curPath)
    }

    constructor ()
      ensures Valid() && values == map[] && curPath == "/" && changed == []
    {
      values := map[];
      curPath := "/";
      changed := [];
    }

    method SetPath(dir: string) returns (r: Result<()>)
      requires Valid()
      modifies this
      ensures Valid() && values == old(values) && changed == old(changed)
      ensures NewPath(old(curPath), dir).Err? ==> r == Err(NewPath(old(curPath), dir).msg) && curPath == old(curPath)
      ensures NewPath(old(curPath), dir).Ok? ==> r == Ok(()) && curPath == NewPath(old(curPath), dir).value
    {
      if dir == [] {
        return Err(CheckFailed("dir.size()"));
      }
      if dir[0] == '/' {
        curPath := dir;
      } else {
        curPath := curPath + dir;
      }
      if curPath[|curPath| - 1] != '/' {
        curPath := curPath + "/";
      }
      r := Ok(());
    }

    /** read<C>(key, def). */
    function Read<C>(key: string, def: C, cast: string -> Option<C>): (r: Result<C>)
      reads this
      ensures key != [] && Absolute(curPath, key).value !in values ==> r == Ok(def)
      ensures r.Err? <==> key == []
    {
      ReadValue(values, curPath, key, def, cast)
    }

    /**
     * write(key, value), with the value already cast to a string: the
     * valueChanging slots may veto it, and then nothing is stored; else the
     * value is stored and valueChanged is emitted.
     */
    method Write(key: string, value: string, answers: seq<bool>) returns (r: Result<bool>, called: nat)
      modifies this
      ensures curPath == old(curPath)
      ensures key == [] ==> r == Err(CheckFailed("key.size()")) && values == old(values) && changed == old(changed) && called == 0
      ensures key != [] ==> called == (if forall i :: 0 <= i < |answers| ==> answers[i] then |answers| else FirstFalse(answers) + 1)
      ensures key != [] && !(forall i :: 0 <= i < |answers| ==> answers[i]) ==>
        r == Ok(false) && values == old(values) && changed == old(changed)
      ensures key != [] && (forall i :: 0 <= i < |answers| ==> answers[i]) ==>
        (r == Ok(true) && values == old(values)[Absolute(curPath, key).value := value]
        && changed == old(changed) + [(Absolute(curPath, key).value[1..], value)])
    {
      if key == [] {
        return Err(CheckFailed("key.size()")), 0;
      }
      var rKey := key;
      if rKey[0] != '/' {
        rKey := curPath + rKey;
      }
      var ok;
      ok, called := BoolCheck(answers);
      if !ok {
        return Ok(false), called;
      }
      values := values[rKey := value];
      changed := changed + [(rKey[1..], value)];
      r := Ok(true);
    }

    /** erase(key): only the key it names is removed. */
    method Erase(key: string) returns (r: Result<()>)
      modifies this
      ensures curPath == old(curPath) && changed == old(changed)
      ensures key == [] ==> r == Err(CheckFailed("key.size()")) && values == old(values)
      ensures key != [] ==> r == Ok(()) && values == old(values) - {Absolute(curPath, key).value}
    {
      if key == [] {
        return Err(CheckFailed("key.size()"));
      }
      if key[0] != '/' {
        values := values - {curPath + key};
      } else {
        values := values - {key};
      }
      r := Ok(());
    }
  }
}
