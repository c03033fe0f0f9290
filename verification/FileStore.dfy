/** The file fallback: one file per secret, replaced by an atomic rename of a
    synced staging file, and counted by listing the directory. */
module FileStore {
  import opened Bytes

  // ------------------------------------------------------------------- file names

  const PERCENT: Byte := 37
  const DOT: Byte := 46

  predicate Plain(b: Byte) {
    97 <= b <= 122 || 65 <= b <= 90 || 48 <= b <= 57 || b == 95 || b == 45
  }

  function Hex(n: nat): (b: Byte)
    requires n < 16
  {
    if n < 10 then 48 + n else 55 + n
  }

  function Piece(b: Byte): (s: Bytes)
  {
    if Plain(b) then [b] else [PERCENT, Hex(b / 16), Hex(b % 16)]
  }

  function FileName(key: Bytes): Bytes {
    if key == [] then [] else Piece(key[0]) + FileName(key[1..])
  }

  /** The source's loop over the bytes of the key. */
  method SecretFileName(key: Bytes) returns (name: Bytes)
    ensures name == FileName(key)
  {
    hide Piece;
    name := [];
    for i := 0 to |key|
      invariant name + FileName(key[i..]) == FileName(key)
    {
      NameGrows(key, i, name);
      name := name + Piece(key[i]);
    }
  }

  lemma NameGrows(key: Bytes, i: nat, name: Bytes)
    requires i < |key| && name + FileName(key[i..]) == FileName(key)
    ensures name + Piece(key[i]) + FileName(key[i + 1..]) == FileName(key)
  {
    hide Piece;
    assert key[i..][1..] == key[i + 1..];
    assert name + (Piece(key[i]) + FileName(key[i + 1..])) == name + Piece(key[i]) + FileName(key[i + 1..]);
  }

  lemma PieceIsPrefixFree(a: Byte, b: Byte, s: Bytes, t: Bytes)
    requires Piece(a) + s == Piece(b) + t
    ensures a == b && s == t
  {
    var whole, other := Piece(a) + s, Piece(b) + t;
    assert whole[0] == other[0];
    assert Plain(a) == Plain(b);
    if !Plain(a) {
      assert whole[1] == other[1] && whole[2] == other[2];
      assert a == 16 * (a / 16) + a % 16 && b == 16 * (b / 16) + b % 16;
    }
    assert s == whole[|Piece(a)|..] && t == other[|Piece(b)|..];
  }

  /** Two keys never share a file. */
  lemma {:induction false} FileNamesDiffer(a: Bytes, b: Bytes)
    requires FileName(a) == FileName(b)
    ensures a == b
  {
    if a != [] && b != [] {
      PieceIsPrefixFree(a[0], b[0], FileName(a[1..]), FileName(b[1..]));
      FileNamesDiffer(a[1..], b[1..]);
      assert a == [a[0]] + a[1..] && b == [b[0]] + b[1..];
    }
  }

  /** Letters, digits, `_` and `-` stand for themselves. */
  predicate Ordinary(b: Byte) {
    || 'a' as int <= b <= 'z' as int || 'A' as int <= b <= 'Z' as int || '0' as int <= b <= '9' as int
    || b == '_' as int || b == '-' as int
  }

  /** The value of a hexadecimal digit. */
  function Digit(b: Byte): Option<nat> {
    if '0' as int <= b <= '9' as int then Some(b - '0' as int)
    else if 'A' as int <= b <= 'F' as int then Some(10 + b - 'A' as int)
    else None
  }

  /** The name of a file read back: `%` and two digits, the higher first, are one byte. */
  function Unescaped(name: Bytes): Option<Bytes> {
    if name == [] then Some([])
    else if Ordinary(name[0]) then
      var rest := Unescaped(name[1..]);
      if rest.None? then None else Some([name[0]] + rest.value)
    else if name[0] != '%' as int || |name| < 3 || Digit(name[1]).None? || Digit(name[2]).None? then None
    else
      var b, rest := 16 * Digit(name[1]).value + Digit(name[2]).value, Unescaped(name[3..]);
      if rest.None? || Ordinary(b) then None else Some([b] + rest.value)
  }

  lemma EscapeReadsBack(b: Byte, high: Byte, low: Byte, rest: Bytes)
    requires Digit(high).Some? && Digit(low).Some? && b == 16 * Digit(high).value + Digit(low).value && !Ordinary(b)
    ensures Unescaped([PERCENT, high, low] + rest) ==
              if Unescaped(rest).None? then None else Some([b] + Unescaped(rest).value)
  {
    hide Digit;
    var s := [PERCENT, high, low] + rest;
    assert s[0] == PERCENT && s[1] == high && s[2] == low && s[3..] == rest;
  }

  lemma PieceReadsBack(b: Byte, rest: Bytes)
    ensures Unescaped(Piece(b) + rest) ==
              if Unescaped(rest).None? then None else Some([b] + Unescaped(rest).value)
  {
    hide Digit, Hex;
    if Plain(b) {
      assert (Piece(b) + rest)[1..] == rest;
    } else {
      DigitOfHex(b / 16);
      DigitOfHex(b % 16);
      assert b == 16 * (b / 16) + b % 16;
      hide Unescaped;
      EscapeReadsBack(b, Hex(b / 16), Hex(b % 16), rest);
    }
  }

  lemma DigitOfHex(n: nat)
    requires n < 16
    ensures Digit(Hex(n)) == Some(n)
  {
  }

  /** Every file name reads back as its key. */
  lemma {:induction false} NameReadsBack(key: Bytes)
    ensures Unescaped(FileName(key)) == Some(key)
  {
    if key != [] {
      NameReadsBack(key[1..]);
      hide Piece, Unescaped;
      PieceReadsBack(key[0], FileName(key[1..]));
      assert key == [key[0]] + key[1..];
    }
  }

  lemma {:induction false} FileNamesHaveNoDot(key: Bytes)
    ensures DOT !in FileName(key)
  {
    if key != [] {
      FileNamesHaveNoDot(key[1..]);
    }
  }

  // ---------------------------------------------------------------- the directory

  type Files = map<Bytes, Bytes>

  /** The mark of a staging file. */
  const MARK: Bytes := [46, 116, 109, 112, 45]

  /** The name contains `.tmp-`. */
  predicate IsStaging(name: Bytes) {
    exists i :: 0 <= i && i + |MARK| <= |name| && name[i] == DOT && name[i..i + |MARK|] == MARK
  }

  lemma SecretsAreNotStaging(key: Bytes)
    ensures !IsStaging(FileName(key))
  {
    FileNamesHaveNoDot(key);
  }

  /** A staging file is one whose name has `.tmp-` in it. */
  lemma StagingExactly(name: Bytes)
    ensures IsStaging(name) <==> exists i | 0 <= i <= |name| - 5 :: Ascii(".tmp-") <= name[i..]
  {
    assert MARK == Ascii(".tmp-");
    if IsStaging(name) {
      var i :| 0 <= i && i + |MARK| <= |name| && name[i] == DOT && name[i..i + |MARK|] == MARK;
      assert name[i..][..5] == name[i..i + 5];
    }
    if i :| 0 <= i <= |name| - 5 && Ascii(".tmp-") <= name[i..] {
      assert name[i..i + |MARK|] == name[i..][..5] && name[i] == name[i..][0];
    }
  }

  function StagingName(key: Bytes, id: Bytes): (name: Bytes)
    ensures IsStaging(name) && name == FileName(key) + Ascii(".tmp-") + id
  {
    assert MARK == Ascii(".tmp-");
    var name, i := FileName(key) + MARK + id, |FileName(key)|;
    assert name[i] == DOT && name[i..i + |MARK|] == MARK;
    name
  }

  /** The directory shows exactly these secrets; whatever else it holds is staging. */
  ghost predicate Shows(files: Files, secrets: map<Bytes, Bytes>) {
    && (forall k :: k in secrets ==> k != [] && FileName(k) in files && files[FileName(k)] == secrets[k])
    && (forall n :: n in files && !IsStaging(n) ==> exists k :: k in secrets && FileName(k) == n)
  }

  /** Listing and counting meets every secret exactly once. */
  lemma {:induction false} ListingCountsSecrets(names: set<Bytes>, keys: set<Bytes>)
    requires forall k :: k in keys ==> FileName(k) in names
    requires forall n :: n in names ==> exists k :: k in keys && FileName(k) == n
    ensures |names| == |keys|
    decreases |keys|
  {
    if keys == {} {
      assert names == {};
    } else {
      var k :| k in keys;
      var rest, others := keys - {k}, names - {FileName(k)};
      forall other | other in rest ensures FileName(other) in others {
        if FileName(other) == FileName(k) {
          FileNamesDiffer(other, k);
        }
      }
      forall n | n in others ensures exists other :: other in rest && FileName(other) == n {
        var other :| other in keys && FileName(other) == n;
        assert other in rest;
      }
      ListingCountsSecrets(others, rest);
      assert |names| == |others| + 1 && |keys| == |rest| + 1;
    }
  }

  /** The committed files listed before `entries`. */
  ghost function Counted(files: Files, entries: set<Bytes>): set<Bytes> {
    set n | n in files && n !in entries && !IsStaging(n)
  }

  lemma CountNext(files: Files, entries: set<Bytes>, name: Bytes)
    requires entries <= files.Keys && name in entries
    ensures |Counted(files, entries - {name})| == |Counted(files, entries)| + if IsStaging(name) then 0 else 1
  {
    if IsStaging(name) {
      assert Counted(files, entries - {name}) == Counted(files, entries);
    } else {
      assert Counted(files, entries - {name}) == Counted(files, entries) + {name};
    }
  }

  /** In every directory a crash can leave, the count is the number of secrets. */
  lemma CountedAreSecrets(files: Files, secrets: map<Bytes, Bytes>)
    requires Shows(files, secrets)
    ensures |Counted(files, {})| == |secrets|
  {
    forall k | k in secrets.Keys ensures FileName(k) in Counted(files, {}) {
      SecretsAreNotStaging(k);
    }
    ListingCountsSecrets(Counted(files, {}), secrets.Keys);
  }

  /** A write of a secret that succeeds has happened; one that does not may have. */
  predicate Puts<K>(before: map<K, Bytes>, key: K, value: Bytes, after: map<K, Bytes>, ok: bool) {
    after == before[key := value] || (!ok && after == before)
  }

  predicate Removes<K>(before: map<K, Bytes>, key: K, after: map<K, Bytes>, ok: bool) {
    after == before - {key} || (!ok && after == before)
  }

  lemma StagingShows(files: Files, secrets: map<Bytes, Bytes>, name: Bytes, content: Bytes)
    requires Shows(files, secrets) && IsStaging(name)
    ensures Shows(files[name := content], secrets)
    ensures Shows(files - {name}, secrets)
  {
    forall k | k in secrets ensures FileName(k) != name {
      SecretsAreNotStaging(k);
    }
  }

  lemma RenameShows(files: Files, secrets: map<Bytes, Bytes>, key: Bytes, value: Bytes, staging: Bytes)
    requires Shows(files, secrets) && key != [] && IsStaging(staging)
    ensures Shows((files - {staging})[FileName(key) := value], secrets[key := value])
  {
    StagingShows(files, secrets, staging, []);
    var after, now := (files - {staging})[FileName(key) := value], secrets[key := value];
    forall k | k in now ensures k != [] && FileName(k) in after && after[FileName(k)] == now[k] {
      if k != key && FileName(k) == FileName(key) {
        FileNamesDiffer(k, key);
      }
    }
    forall n | n in after && !IsStaging(n) ensures exists k :: k in now && FileName(k) == n {
      if n == FileName(key) {
        assert key in now;
      } else {
        var k :| k in secrets && FileName(k) == n;
        assert k in now;
      }
    }
  }

  lemma RemoveShows(files: Files, secrets: map<Bytes, Bytes>, key: Bytes)
    requires Shows(files, secrets)
    ensures Shows(files - {FileName(key)}, secrets - {key})
  {
    SecretsAreNotStaging(key);
    var after, now := files - {FileName(key)}, secrets - {key};
    forall k | k in now ensures FileName(k) in after && after[FileName(k)] == now[k] {
      if FileName(k) == FileName(key) {
        FileNamesDiffer(k, key);
      }
    }
    forall n | n in after && !IsStaging(n) ensures exists k :: k in now && FileName(k) == n {
      var k :| k in secrets && FileName(k) == n;
      assert k in now;
    }
  }

  datatype Outcome = Done | Failed | Crashed

  class Store {
    var files: Files
    var exposed: set<Bytes>   // names of files others may read
    const reliable: bool      // nothing fails or crashes
    const utf8: Bytes -> bool
    ghost var secrets: map<Bytes, Bytes>

    ghost predicate Valid()
      reads this
    {
      Shows(files, secrets)
    }

    /** A directory as it is found, in whatever state crashes and others have left it. */
    constructor (reliable: bool, utf8: Bytes -> bool, files: Files, exposed: set<Bytes>,
                 ghost secrets: map<Bytes, Bytes>)
      requires Shows(files, secrets)
      ensures Valid() && this.reliable == reliable && this.utf8 == utf8
      ensures this.files == files && this.exposed == exposed && this.secrets == secrets
    {
      this.reliable, this.utf8 := reliable, utf8;
      this.files, this.exposed, this.secrets := files, exposed, secrets;
    }

    method Fails() returns (fail: bool)
      ensures reliable ==> !fail
    {
      fail := *;
      if reliable {
        fail := false;
      }
    }

    /** Create the staging file and write it, or leave any part of it behind. */
    method Stage(name: Bytes, value: Bytes) returns (outcome: Outcome)
      requires Valid() && IsStaging(name)
      modifies this`files
      ensures Valid()
      ensures outcome.Done? ==> name in files && files[name] == value
      ensures forall n :: n !in {name} ==>
                (n in files <==> n in old(files)) && (n in files ==> files[n] == old(files)[n])
      ensures reliable ==> outcome == if name in old(files) then Failed else Done
    {
      var refused := Fails();
      if name in files || refused {
        return Failed;
      }
      var written :| 0 <= written <= |value|;
      if reliable {
        written := |value|;
      }
      if written == |value| {
        StagingShows(files, secrets, name, value);
        files := files[name := value];
        outcome := Done;
      } else {
        StagingShows(files, secrets, name, value[..written]);
        files := files[name := value[..written]];
        outcome := Failed;
      }
      var crash := Fails();
      if crash {
        outcome := Crashed;
      }
    }

    /** The source's `put_with_checkpoint`. A crash stops it anywhere, with the
        staging file left behind; a failure still tries to remove it. */
    method Put(key: Bytes, value: Bytes, id: Bytes) returns (outcome: Outcome)
      requires Valid()
      modifies this
      ensures Valid()
      ensures Puts(old(secrets), key, value, secrets, outcome.Done?)
      ensures key == [] ==> outcome.Failed? && files == old(files)
      ensures outcome.Done? ==> StagingName(key, id) !in files
      ensures exposed == old(exposed) ||
              (exposed == old(exposed) - {FileName(key)} && secrets == old(secrets)[key := value])
      ensures outcome.Done? ==> FileName(key) !in exposed
      ensures reliable ==> (outcome.Done? <==> key != [] && StagingName(key, id) !in old(files))
      ensures reliable && key != [] ==> StagingName(key, id) !in files
    {
      if key == [] {
        return Failed;
      }
      var path := SecretFileName(key);
      var staging := StagingName(key, id);
      outcome := Stage(staging, value);
      if outcome.Done? {
        outcome := Commit(staging, path, key, value);
      }
      if outcome.Failed? {
        var kept := Fails();
        if !kept {
          StagingShows(files, secrets, staging, []);
          files := files - {staging};
        }
      }
    }

    /** The checkpoint after syncing, the rename, and the checkpoint after it. */
    method Commit(staging: Bytes, path: Bytes, key: Bytes, value: Bytes) returns (outcome: Outcome)
      requires Valid() && key != [] && path == FileName(key)
      requires IsStaging(staging) && staging in files && files[staging] == value
      modifies this
      ensures Valid()
      ensures Puts(old(secrets), key, value, secrets, outcome.Done?)
      ensures outcome.Done? ==> staging !in files && FileName(key) !in exposed && secrets == old(secrets)[key := value]
      ensures exposed == old(exposed) ||
              (exposed == old(exposed) - {FileName(key)} && secrets == old(secrets)[key := value])
      ensures reliable ==> outcome.Done?
    {
      var stop := Fails();
      var refused := Fails();
      var late := Fails();
      if stop || refused {
        return if refused then Failed else Crashed;
      }
      RenameShows(files, secrets, key, value, staging);
      SecretsAreNotStaging(key);
      files := (files - {staging})[path := files[staging]];
      exposed := exposed - {path};   // the staging file was created private
      secrets := secrets[key := value];
      var crash := Fails();
      outcome := if crash then Crashed else if late then Failed else Done;
    }

    method Get(key: Bytes) returns (r: Result<Option<Bytes>, ()>)
      requires Valid()
      ensures key == [] ==> r.Err?
      ensures r.Ok? ==> r.value == if key in secrets then Some(secrets[key]) else None
      ensures key in secrets && (FileName(key) in exposed || !utf8(secrets[key])) ==> r.Err?
      ensures reliable ==> (r.Err? <==>
                              key == [] || (key in secrets && (FileName(key) in exposed || !utf8(secrets[key]))))
    {
      var fail := Fails();
      if key == [] || fail {
        return Err(());
      }
      var path := SecretFileName(key);
      SecretsAreNotStaging(key);
      if path !in files {
        return Ok(None);
      }
      ghost var k :| k in secrets && FileName(k) == path;
      FileNamesDiffer(k, key);
      r := if path in exposed || !utf8(files[path]) then Err(()) else Ok(Some(files[path]));
    }

    method Delete(key: Bytes) returns (outcome: Outcome)
      requires Valid()
      modifies this
      ensures Valid()
      ensures Removes(old(secrets), key, secrets, outcome.Done?)
      ensures key == [] ==> outcome.Failed? && files == old(files)
      ensures exposed in {old(exposed), old(exposed) - {FileName(key)}}
      ensures reliable ==> (outcome.Done? <==> key != [])
    {
      var refused := Fails();
      var crash := Fails();
      if key == [] || refused {
        return Failed;
      }
      var path := SecretFileName(key);
      RemoveShows(files, secrets, key);
      files, exposed := files - {path}, exposed - {path};
      secrets := secrets - {key};
      outcome := if crash then Crashed else Done;
    }

    /** The source's `stored_secret_count`: staging files left by any crash are
        not counted, and every committed secret is. */
    method StoredSecretCount() returns (r: Result<nat, ()>)
      requires Valid()
      ensures r.Ok? ==> r.value == |secrets|
      ensures reliable ==> r.Ok?
    {
      var entries, count := files.Keys, 0;
      assert Counted(files, entries) == {};
      while entries != {}
        invariant entries <= files.Keys
        invariant count == |Counted(files, entries)|
        decreases |entries|
      {
        var fail := Fails();
        if fail {
          return Err(());
        }
        var name :| name in entries;
        CountNext(files, entries, name);
        entries := entries - {name};
        if !IsStaging(name) {
          count := count + 1;
        }
      }
      CountedAreSecrets(files, secrets);
      r := Ok(count);
    }
  }
}
