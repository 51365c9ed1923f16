/** The file-based key store: one file per key, named after its identifier and its kind. */
module KeyStore {
  import opened Prelude
  import opened StringOrder

  datatype Kind = EcdsaPrivate | RsaPrivate | EcdsaPublic | RsaPublic | Aes | OtherKind

  datatype Key = Key(kind: Kind, material: Bytes)

  predicate IsPrivate(k: Key) { k.kind == EcdsaPrivate || k.kind == RsaPrivate }
  predicate IsPublic(k: Key) { k.kind == EcdsaPublic || k.kind == RsaPublic }

  /** Identifiers and PEM, under the password of the store. */
  datatype Encoding = Encoding(
    ski: Key -> Bytes,
    toPem: Key -> Option<Bytes>,
    privateFromPem: Bytes -> Option<Key>,
    publicFromPem: Bytes -> Option<Key>,
    aesFromPem: Bytes -> Option<Key>)

  /** Identifiers are SHA-256 hashes; what is encoded decodes to the same key; decoders respect kinds. */
  ghost predicate Proper(e: Encoding) {
    && (forall k :: |e.ski(k)| == 32)
    && (forall k :: e.toPem(k).Some? ==> k.kind != OtherKind)
    && (forall k :: e.toPem(k).Some? && IsPrivate(k) ==> e.privateFromPem(e.toPem(k).value) == Some(k))
    && (forall k :: e.toPem(k).Some? && IsPublic(k) ==> e.publicFromPem(e.toPem(k).value) == Some(k))
    && (forall k :: e.toPem(k).Some? && k.kind == Aes ==> e.aesFromPem(e.toPem(k).value) == Some(k))
  }

  // ---------------------------------------------------------------------------------------------
  // File names.

  function HexDigit(d: nat): char
    requires d < 16
  {
    "0123456789abcdef"[d]
  }

  /** hex.EncodeToString. */
  function Hex(b: Bytes): (s: string)
    ensures |s| == 2 * |b|
  {
    if b == [] then "" else [HexDigit(b[0] / 16), HexDigit(b[0] % 16)] + Hex(b[1..])
  }

  lemma {:induction false} HexDigitInjective(c: nat, d: nat)
    requires c < 16 && d < 16 && HexDigit(c) == HexDigit(d)
    ensures c == d
  {
    var digits := "0123456789abcdef";
    assert forall i, j :: 0 <= i < j < 16 ==> digits[i] != digits[j];
  }

  lemma {:induction false} HexInjective(a: Bytes, b: Bytes)
    requires Hex(a) == Hex(b)
    ensures a == b
  {
    if a != [] && b != [] {
      assert Hex(a)[0] == Hex(b)[0] && Hex(a)[1] == Hex(b)[1];
      HexDigitInjective(a[0] / 16, b[0] / 16);
      HexDigitInjective(a[0] % 16, b[0] % 16);
      assert Hex(a)[2..] == Hex(a[1..]) && Hex(b)[2..] == Hex(b[1..]);
      HexInjective(a[1..], b[1..]);
      assert a == [a[0]] + a[1..] && b == [b[0]] + b[1..];
    }
  }

  /** The ending of a file name; NoSuffix stands for the empty string. */
  datatype Suffix = SK | PK | KEY | NoSuffix

  function Text(x: Suffix): string {
    match x
    case SK => "sk"
    case PK => "pk"
    case KEY => "key"
    case NoSuffix => ""
  }

  /** getPathForAlias, within the directory of the store. */
  function PathFor(alias: string, x: Suffix): string {
    alias + "_" + Text(x)
  }

  function SuffixFor(k: Key): Suffix {
    if IsPrivate(k) then SK else if IsPublic(k) then PK else KEY
  }

  function NameOf(e: Encoding, k: Key): string {
    PathFor(Hex(e.ski(k)), SuffixFor(k))
  }

  predicate HasSuffix(s: string, suffix: string) {
    |suffix| <= |s| && s[|s| - |suffix|..] == suffix
  }

  /** The suffix that getSuffix reads off a file name. */
  function SuffixOf(name: string): Suffix {
    if HasSuffix(name, "sk") then SK
    else if HasSuffix(name, "pk") then PK
    else if HasSuffix(name, "key") then KEY
    else NoSuffix
  }

  lemma {:induction false} EndOf(front: string, end: string, n: nat)
    requires n <= |end|
    ensures (front + end)[|front + end| - n..] == end[|end| - n..]
  {
  }

  lemma {:induction false} EndsInSk(front: string)
    ensures SuffixOf(front + "sk") == SK
  {
    EndOf(front, "sk", 2);
  }

  lemma {:induction false} EndsInPk(front: string)
    ensures SuffixOf(front + "pk") == PK
  {
    EndOf(front, "pk", 2);
    assert "pk"[0..][0] != "sk"[0];
  }

  lemma {:induction false} EndsInKey(front: string)
    ensures SuffixOf(front + "key") == KEY
  {
    EndOf(front, "key", 2);
    EndOf(front, "key", 3);
    assert "key"[1..][1] != 'k';
  }

  lemma {:induction false} SuffixOfPath(alias: string, x: Suffix)
    requires x != NoSuffix
    ensures SuffixOf(PathFor(alias, x)) == x
  {
    match x
    case SK => EndsInSk(alias + "_");
    case PK => EndsInPk(alias + "_");
    case KEY => EndsInKey(alias + "_");
  }

  lemma {:induction false} PathsDiffer(alias: string)
    ensures PathFor(alias, SK) != PathFor(alias, PK) && PathFor(alias, PK) != PathFor(alias, KEY)
    ensures PathFor(alias, SK) != PathFor(alias, KEY)
  {
    SuffixOfPath(alias, SK);
    SuffixOfPath(alias, PK);
    SuffixOfPath(alias, KEY);
  }

  // ---------------------------------------------------------------------------------------------
  // The directory.

  type Directory = map<string, Bytes>

  /** The file holds key k, under the name of k. */
  ghost predicate Holds(e: Encoding, files: Directory, name: string, k: Key) {
    name in files && name == NameOf(e, k) && e.toPem(k) == Some(files[name])
  }

  /** Every file holds a key. */
  ghost predicate WellKept(e: Encoding, files: Directory) {
    forall name :: name in files ==> exists k :: Holds(e, files, name, k)
  }

  /** What StoreKey does to the directory. */
  function Stored(e: Encoding, files: Directory, k: Key): Directory {
    if e.toPem(k).None? then files else files[NameOf(e, k) := e.toPem(k).value]
  }

  function StoredAll(e: Encoding, files: Directory, keys: seq<Key>): Directory
    decreases |keys|
  {
    if keys == [] then files else StoredAll(e, Stored(e, files, keys[0]), keys[1..])
  }

  lemma {:induction false} StoredWellKept(e: Encoding, files: Directory, k: Key)
    requires WellKept(e, files)
    ensures WellKept(e, Stored(e, files, k))
  {
    var after := Stored(e, files, k);
    forall name | name in after ensures exists x :: Holds(e, after, name, x) {
      if e.toPem(k).Some? && name == NameOf(e, k) {
        assert Holds(e, after, name, k);
      } else {
        var x :| Holds(e, files, name, x);
        assert Holds(e, after, name, x);
      }
    }
  }

  /** Every run of stores keeps the directory well, and forgets no name. */
  lemma {:induction false} RunsWellKept(e: Encoding, files: Directory, keys: seq<Key>)
    requires WellKept(e, files)
    ensures WellKept(e, StoredAll(e, files, keys))
    ensures forall name :: name in files ==> name in StoredAll(e, files, keys)
    ensures forall k :: k in keys && e.toPem(k).Some? ==> NameOf(e, k) in StoredAll(e, files, keys)
    decreases |keys|
  {
    if keys != [] {
      StoredWellKept(e, files, keys[0]);
      RunsWellKept(e, Stored(e, files, keys[0]), keys[1..]);
      assert forall k :: k in keys ==> k == keys[0] || k in keys[1..];
    }
  }

  /** Some file is named after the identifier. */
  predicate Known(files: Directory, ski: Bytes) {
    PathFor(Hex(ski), KEY) in files || PathFor(Hex(ski), PK) in files || PathFor(Hex(ski), SK) in files
  }

  /** The kind that is found first: the names are ordered key, pk, sk. */
  function FirstSuffix(files: Directory, ski: Bytes): Suffix
    requires Known(files, ski)
  {
    if PathFor(Hex(ski), KEY) in files then KEY
    else if PathFor(Hex(ski), PK) in files then PK
    else SK
  }

  /** In a well-kept directory, the names that begin with a full-length identifier are those of its keys. */
  lemma {:induction false} MatchingName(e: Encoding, files: Directory, ski: Bytes, name: string)
    requires Proper(e) && WellKept(e, files) && |ski| == 32
    requires name in files && Hex(ski) <= name
    ensures SuffixOf(name) != NoSuffix && name == PathFor(Hex(ski), SuffixOf(name))
  {
    var k :| Holds(e, files, name, k);
    var own := Hex(e.ski(k));
    assert name[..64] == own && name[..64] == Hex(ski);
    SuffixOfPath(own, SuffixFor(k));
  }

  /** Names with one alias are ordered key, pk, sk. */
  lemma {:induction false} NameOrder(alias: string)
    ensures AtMost(PathFor(alias, KEY), PathFor(alias, PK))
    ensures AtMost(PathFor(alias, KEY), PathFor(alias, SK))
    ensures AtMost(PathFor(alias, PK), PathFor(alias, SK))
  {
    AtMostPrefix(alias + "_", "key", "pk");
    AtMostPrefix(alias + "_", "key", "sk");
    AtMostPrefix(alias + "_", "pk", "sk");
  }

  /** The name at which getSuffix stops. */
  ghost predicate FirstMatch(files: Directory, alias: string, name: string) {
    && name in files && alias <= name
    && forall other :: other in files && alias <= other ==> other == name || AtMost(name, other)
  }

  /** File names determine alias and suffix. */
  lemma {:induction false} PathInjective(a: string, x: Suffix, b: string, y: Suffix)
    requires x != NoSuffix && y != NoSuffix && PathFor(a, x) == PathFor(b, y)
    ensures a == b && x == y
  {
    SuffixOfPath(a, x);
    SuffixOfPath(b, y);
    var n := |PathFor(a, x)| - |Text(x)| - 1;
    assert PathFor(a, x)[..n] == a && PathFor(b, y)[..n] == b;
  }

  lemma {:induction false} FirstKindLeast(files: Directory, ski: Bytes, x: Suffix)
    requires Known(files, ski) && x != NoSuffix && PathFor(Hex(ski), x) in files
    ensures x == FirstSuffix(files, ski) || AtMost(PathFor(Hex(ski), FirstSuffix(files, ski)), PathFor(Hex(ski), x))
  {
    NameOrder(Hex(ski));
  }

  /** For a known identifier, that is the name of its first kind. */
  lemma {:induction false} FirstKindMatches(e: Encoding, files: Directory, ski: Bytes)
    requires Proper(e) && WellKept(e, files) && |ski| == 32 && Known(files, ski)
    ensures FirstMatch(files, Hex(ski), PathFor(Hex(ski), FirstSuffix(files, ski)))
  {
    var alias, first := Hex(ski), PathFor(Hex(ski), FirstSuffix(files, ski));
    assert alias <= first && first in files;
    forall name | name in files && alias <= name ensures name == first || AtMost(first, name) {
      MatchingName(e, files, ski, name);
      FirstKindLeast(files, ski, SuffixOf(name));
    }
  }

  /** A file that is named after the identifier holds a key with that identifier, and loads it. */
  lemma {:induction false} LoadedKey(e: Encoding, files: Directory, ski: Bytes, x: Suffix) returns (k: Key)
    requires Proper(e) && WellKept(e, files) && x != NoSuffix && PathFor(Hex(ski), x) in files
    ensures e.ski(k) == ski && SuffixFor(k) == x && Loaded(e, x, files[PathFor(Hex(ski), x)]) == Some(k)
  {
    var name := PathFor(Hex(ski), x);
    k :| Holds(e, files, name, k);
    PathInjective(Hex(ski), x, Hex(e.ski(k)), SuffixFor(k));
    HexInjective(ski, e.ski(k));
  }

  /** Keys of a type that is not recognized are refused. */
  function OnlyIf(recognized: Key -> bool, k: Option<Key>): Option<Key> {
    if k.Some? && recognized(k.value) then k else None
  }

  function Loaded(e: Encoding, x: Suffix, pem: Bytes): Option<Key> {
    match x
    case SK => OnlyIf(IsPrivate, e.privateFromPem(pem))
    case PK => OnlyIf(IsPublic, e.publicFromPem(pem))
    case KEY => e.aesFromPem(pem)
    case NoSuffix => None
  }

  /** The file decodes to a private key with that identifier. */
  predicate HoldsPrivate(e: Encoding, pem: Bytes, ski: Bytes) {
    e.privateFromPem(pem).Some? && IsPrivate(e.privateFromPem(pem).value) && e.ski(e.privateFromPem(pem).value) == ski
  }

  /** The first such file in the order of names. */
  ghost predicate FirstPrivate(e: Encoding, files: Directory, ski: Bytes, name: string) {
    && name in files && HoldsPrivate(e, files[name], ski)
    && forall other :: other in files && HoldsPrivate(e, files[other], ski) ==> other == name || AtMost(name, other)
  }

  // ---------------------------------------------------------------------------------------------
  // The store.

  class FileKeyStore {
    const e: Encoding
    const readOnly: bool
    var files: Directory

    constructor (e: Encoding, readOnly: bool)
      ensures this.e == e && this.readOnly == readOnly && files == map[]
    {
      this.e, this.readOnly, files := e, readOnly, map[];
    }

    /** Fails on a read-only store, on no key, and on a key that has no PEM form. */
    method StoreKey(k: Option<Key>) returns (ok: bool)
      modifies this
      ensures ok <==> !readOnly && k.Some? && k.value.kind != OtherKind && e.toPem(k.value).Some?
      ensures files == if ok then Stored(e, old(files), k.value) else old(files)
    {
      if readOnly || k.None? || k.value.kind == OtherKind {
        return false;
      }
      var pem := e.toPem(k.value);
      if pem.None? {
        return false;
      }
      files := files[NameOf(e, k.value) := pem.value];
      return true;
    }

    /** ioutil.ReadDir: the names in order. */
    method ReadDir() returns (names: seq<string>)
      ensures IsSorted(names)
      ensures forall name :: name in names <==> name in files
    {
      var left := files.Keys;
      var found: seq<string> := [];
      while left != {}
        invariant forall name :: name in files <==> name in left || name in found
        decreases left
      {
        var name :| name in left;
        left := left - {name};
        found := found + [name];
      }
      SortedCorrect(found);
      names := Sorted(found);
      assert forall name :: name in names <==> name in multiset(names);
      assert forall name :: name in found <==> name in multiset(found);
    }

    /** getSuffix: looks at the first name that begins with the alias, and at no other. */
    method GetSuffix(alias: string) returns (x: Suffix)
      ensures forall name :: FirstMatch(files, alias, name) ==> x == SuffixOf(name)
      ensures (forall name :: name in files ==> !(alias <= name)) ==> x == NoSuffix
    {
      var names := ReadDir();
      for i := 0 to |names|
        invariant forall j :: 0 <= j < i ==> !(alias <= names[j])
      {
        if alias <= names[i] {
          assert names[i] in files;
          forall name | FirstMatch(files, alias, name) ensures name == names[i] {
            var j :| 0 <= j < |names| && names[j] == name;
            if name != names[i] {
              AtMostAntisymmetric(name, names[i]);
            }
          }
          return SuffixOf(names[i]);
        }
      }
      return NoSuffix;
    }

    /** searchKeystoreForSKI: the first file with a private key of that identifier, whatever its name. */
    method SearchForSKI(ski: Bytes) returns (r: Option<Key>)
      ensures r.None? ==> forall name :: name in files ==> !HoldsPrivate(e, files[name], ski)
      ensures r.Some? ==> exists name :: FirstPrivate(e, files, ski, name) && r == e.privateFromPem(files[name])
    {
      var names := ReadDir();
      for i := 0 to |names|
        invariant forall j :: 0 <= j < i ==> !HoldsPrivate(e, files[names[j]], ski)
      {
        var key := e.privateFromPem(files[names[i]]);
        if key.Some? && IsPrivate(key.value) && e.ski(key.value) == ski {
          forall name | name in files && HoldsPrivate(e, files[name], ski) ensures name == names[i] || AtMost(names[i], name) {
            var j :| 0 <= j < |names| && names[j] == name;
          }
          assert FirstPrivate(e, files, ski, names[i]);
          return key;
        }
      }
      return None;
    }

    /**
     GetKey: in a well-kept directory it never returns a key with another identifier, and it finds a
     key for every identifier that has one, of the first kind in the order of names.
     */
    method GetKey(ski: Bytes) returns (r: Option<Key>)
      requires Proper(e) && WellKept(e, files)
      ensures r.Some? ==> e.ski(r.value) == ski
      ensures Known(files, ski) ==>
                r.Some? && r == Found(e, files, ski)
      ensures ski == [] ==> r.None?
      ensures forall name :: FirstMatch(files, Hex(ski), name) && SuffixOf(name) != NoSuffix && ski != [] ==>
                var path := PathFor(Hex(ski), SuffixOf(name));
                r == if path in files then Loaded(e, SuffixOf(name), files[path]) else None
      ensures ski != [] && (forall name :: name in files ==> !(Hex(ski) <= name)) ==>
                if r.None? then forall name :: name in files ==> !HoldsPrivate(e, files[name], ski)
                else exists name :: FirstPrivate(e, files, ski, name) && r == e.privateFromPem(files[name])
    {
      if Known(files, ski) {
        ghost var k := LoadedKey(e, files, ski, FirstSuffix(files, ski));
        FirstKindMatches(e, files, ski);
        SuffixOfPath(Hex(ski), FirstSuffix(files, ski));
      }
      if |ski| == 0 {
        return None;
      }
      var alias := Hex(ski);
      var x := GetSuffix(alias);
      if x == NoSuffix {
        r := SearchForSKI(ski);
      } else if PathFor(alias, x) in files {
        ghost var k := LoadedKey(e, files, ski, x);
        r := Loaded(e, x, files[PathFor(alias, x)]);
      } else {
        r := None;
      }
    }
  }

  /** From an empty directory, after any run of stores: the directory is well kept, and each stored key's
      identifier is known, so that GetKey answers it with a key of that identifier. */
  lemma {:induction false} StoreThenKnown(e: Encoding, keys: seq<Key>, k: Key)
    requires k in keys && e.toPem(k).Some? && Proper(e)
    ensures WellKept(e, StoredAll(e, map[], keys))
    ensures Known(StoredAll(e, map[], keys), e.ski(k))
  {
    RunsWellKept(e, map[], keys);
  }

  /** What GetKey loads for a known identifier. */
  function Found(e: Encoding, files: Directory, ski: Bytes): Option<Key>
    requires Known(files, ski)
  {
    Loaded(e, FirstSuffix(files, ski), files[PathFor(Hex(ski), FirstSuffix(files, ski))])
  }

  /** No file of the directory is in front of the one that k is stored in, among those of its identifier. */
  predicate ComesFirst(e: Encoding, files: Directory, k: Key) {
    && (SuffixFor(k) != KEY ==> PathFor(Hex(e.ski(k)), KEY) !in files)
    && (SuffixFor(k) == SK ==> PathFor(Hex(e.ski(k)), PK) !in files)
  }

  lemma {:induction false} FirstAfterStore(e: Encoding, files: Directory, k: Key)
    requires e.toPem(k).Some?
    ensures Known(Stored(e, files, k), e.ski(k))
    ensures FirstSuffix(Stored(e, files, k), e.ski(k)) == SuffixFor(k) <==> ComesFirst(e, files, k)
  {
    PathsDiffer(Hex(e.ski(k)));
  }

  /** GetKey returns the key just stored exactly if the directory held no kind ordered before it under the identifier. */
  lemma {:induction false} StoreThenGetIff(e: Encoding, files: Directory, k: Key)
    requires Proper(e) && WellKept(e, files) && e.toPem(k).Some?
    ensures var after := Stored(e, files, k);
            Known(after, e.ski(k)) && (Found(e, after, e.ski(k)) == Some(k) <==> ComesFirst(e, files, k))
  {
    var after := Stored(e, files, k);
    StoredWellKept(e, files, k);
    FirstAfterStore(e, files, k);
    var x := FirstSuffix(after, e.ski(k));
    if x == SuffixFor(k) {
      LoadedBack(e, k);
    } else {
      var other := LoadedKey(e, after, e.ski(k), x);
    }
  }

  lemma {:induction false} LoadedBack(e: Encoding, k: Key)
    requires Proper(e) && e.toPem(k).Some?
    ensures Loaded(e, SuffixFor(k), e.toPem(k).value) == Some(k)
  {
  }

  /** So a private key is no longer returned once its public key is stored as well. */
  lemma {:induction false} PublicBeforePrivate(e: Encoding, files: Directory, private: Key, public: Key)
    requires Proper(e) && WellKept(e, files)
    requires IsPrivate(private) && IsPublic(public) && e.ski(private) == e.ski(public)
    requires e.toPem(private).Some? && e.toPem(public).Some?
    requires PathFor(Hex(e.ski(private)), KEY) !in files
    ensures var both := Stored(e, Stored(e, files, private), public);
            Known(both, e.ski(private)) && Found(e, both, e.ski(private)) == Some(public)
  {
    PathsDiffer(Hex(e.ski(private)));
    StoredWellKept(e, files, private);
    StoreThenGetIff(e, Stored(e, files, private), public);
  }
}
