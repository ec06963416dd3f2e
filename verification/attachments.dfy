/** Resolving a note's attachment keys to the images shown for it, as both the
    note card of the list and the note page do: look each key up in storage,
    keep the value only if it is an image data URI, drop everything else. */
module Attachments {
  import opened Wrappers
  import opened Text

  const ImagePrefix: string := "data:image/"

  /** The browser's local storage, read-only here: key to stored string. */
  type Storage = map<string, string>

  /** The stored value under `key` if there is one and it is an image data URI, else nothing. */
  function LookupImage(storage: Storage, key: string): Option<string> {
    if key in storage && StartsWith(storage[key], ImagePrefix) then Some(storage[key]) else None
  }

  /** JavaScript truthiness of a string or null: null and the empty string are falsy. */
  predicate Truthy(item: Option<string>) {
    item.Some? && item.value != ""
  }

  /** Looks every key up and keeps the truthy results, in key order. */
  function ResolveKeys(storage: Storage, keys: seq<string>): (images: seq<string>)
    ensures |images| <= |keys|
    ensures forall v :: v in images ==> StartsWith(v, ImagePrefix)
    ensures forall v :: v in images ==> exists k :: k in keys && k in storage && storage[k] == v
    decreases |keys|
  {
    if keys == [] then []
    else
      var item := LookupImage(storage, keys[0]);
      (if Truthy(item) then [item.value] else []) + ResolveKeys(storage, keys[1..])
  }

  /** The images of a note: none when it has no attachment list, otherwise the resolved keys. */
  function ResolveImages(storage: Storage, attachments: Option<seq<string>>): (images: seq<string>)
    ensures attachments.None? ==> images == []
    ensures |images| <= |attachments.GetOr([])|
    ensures forall v :: v in images ==> StartsWith(v, ImagePrefix)
  {
    match attachments
    case None => []
    case Some(keys) => ResolveKeys(storage, keys)
  }

  /** One key yields its stored value exactly when that value is an image data URI. */
  lemma ResolveOneKey(storage: Storage, key: string)
    ensures ResolveKeys(storage, [key])
         == if key in storage && StartsWith(storage[key], ImagePrefix) then [storage[key]] else []
  {
    assert [key][1..] == [];
  }

  /** Images come out in the order of their keys. */
  lemma {:induction false} ResolveKeysConcat(storage: Storage, a: seq<string>, b: seq<string>)
    ensures ResolveKeys(storage, a + b) == ResolveKeys(storage, a) + ResolveKeys(storage, b)
    decreases |a|
  {
    if a == [] {
      assert a + b == b;
    } else {
      assert (a + b)[0] == a[0] && (a + b)[1..] == a[1..] + b;
      ResolveKeysConcat(storage, a[1..], b);
    }
  }

  /** A key that is missing from storage, or whose value is not an image data
      URI, contributes nothing and disturbs nothing around it. */
  lemma DropsUnusableKey(storage: Storage, before: seq<string>, key: string, after: seq<string>)
    requires key !in storage || !StartsWith(storage[key], ImagePrefix)
    ensures ResolveKeys(storage, before + [key] + after) == ResolveKeys(storage, before + after)
  {
    ResolveKeysConcat(storage, before + [key], after);
    ResolveKeysConcat(storage, before, [key]);
    ResolveOneKey(storage, key);
    ResolveKeysConcat(storage, before, after);
  }

  /** Every key whose stored value is an image data URI shows up. */
  lemma {:induction false} ResolveKeysComplete(storage: Storage, keys: seq<string>, key: string)
    requires key in keys && key in storage && StartsWith(storage[key], ImagePrefix)
    ensures storage[key] in ResolveKeys(storage, keys)
    decreases |keys|
  {
    if keys[0] != key {
      assert key in keys[1..];
      ResolveKeysComplete(storage, keys[1..], key);
    }
  }
}
