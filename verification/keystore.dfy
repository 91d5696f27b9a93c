/**
 * Key resolution done once when the matcher is built: an explicit key
 * string wins; otherwise the key file `secret.key` is reused; otherwise a
 * drawn 32-byte key is generated and saved there.
 */
module KeyStore {
  import opened PyValues
  import Utf8

  /** Secret key material: a byte string. */
  type Key = seq<Utf8.byte>

  /** Length of an internally generated key. */
  const GeneratedKeyLength := 32

  /** The state of the key file on disk. */
  datatype KeyFile = Missing | Stored(contents: Key)

  /** Which of the three paths produced the key. */
  datatype KeySource = FromArgument | FromFile | Generated

  /** The key in use, the key file afterwards, and where the key came from. */
  datatype Resolution = Resolution(key: Key, file: KeyFile, source: KeySource)

  /**
   * Resolves the key. `explicit` is the optional key argument and `drawn`
   * stands for the 32 random bytes the generating path draws.
   */
  function Resolve(explicit: Option<string>, file: KeyFile, drawn: Key): (r: Resolution)
    requires |drawn| == GeneratedKeyLength
    // an explicit key is its own encoding and leaves the file alone
    ensures Truthy(explicit) ==>
              r.source == FromArgument && r.file == file && r.key == Utf8.Encode(explicit.value)
    ensures Truthy(explicit) ==> |explicit.value| <= |r.key|
    // without one, the key file afterwards holds exactly the key in use
    ensures !Truthy(explicit) ==> r.file == Stored(r.key)
    ensures !Truthy(explicit) && file.Stored? ==> r.key == file.contents && r.source == FromFile
    // the only write happens when there was no file, and it is a 32-byte key
    ensures r.file != file ==>
              file == Missing && r.source == Generated && |r.key| == GeneratedKeyLength
  {
    if Truthy(explicit) then
      Resolution(Utf8.Encode(explicit.value), file, FromArgument)
    else
      match file
      case Stored(contents) => Resolution(contents, file, FromFile)
      case Missing => Resolution(drawn, Stored(drawn), Generated)
  }

  /**
   * Resolving again without an explicit key, against the file the first
   * resolution left behind, yields the same key and writes nothing.
   */
  lemma ResolveIsStable(e1: Option<string>, e2: Option<string>, file: KeyFile, drawn1: Key, drawn2: Key)
    requires !Truthy(e1) && !Truthy(e2)
    requires |drawn1| == GeneratedKeyLength && |drawn2| == GeneratedKeyLength
    ensures var first := Resolve(e1, file, drawn1);
            var second := Resolve(e2, first.file, drawn2);
            second.key == first.key && second.file == first.file && second.source == FromFile
  {
    var first := Resolve(e1, file, drawn1);
    assert first.file == Stored(first.key);
  }

  /** The empty key string behaves exactly like no key argument. */
  lemma EmptyKeyIsNoKey(file: KeyFile, drawn: Key)
    requires |drawn| == GeneratedKeyLength
    ensures Resolve(Some(""), file, drawn) == Resolve(None, file, drawn)
  {
  }

  /** Two different explicit key strings give two different keys. */
  lemma ExplicitKeysDistinct(e1: string, e2: string, file: KeyFile, drawn: Key)
    requires e1 != "" && e2 != "" && e1 != e2
    requires |drawn| == GeneratedKeyLength
    ensures Resolve(Some(e1), file, drawn).key != Resolve(Some(e2), file, drawn).key
  {
    if Utf8.Encode(e1) == Utf8.Encode(e2) {
      Utf8.EncodeInjective(e1, e2);
    }
  }
}
