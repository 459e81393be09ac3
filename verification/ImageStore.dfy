/**
The metadata document of the image repository, and the store operations that run on it
one at a time.  The operations of concurrent processes are in module StoreProtocol.
 */
module ImageStore {
  import opened Wrappers
  import opened ImageReference

  datatype SarusImage = SarusImage(
    reference: Reference, id: string, datasize: string, created: string, imageFile: string, metadataFile: string)

  /** One object of the "images" array.  Entries of old Sarus versions lack an id and a registry digest. */
  datatype Entry = Entry(
    uniqueKey: string, server: string, repositoryNamespace: string, image: string, tag: string,
    digest: string, registryDigest: Option<string>, id: Option<string>,
    imagePath: string, metadataPath: string, datasize: string, created: string)

  type Document = seq<Entry>

  // ---------------------------------------------------------------- entries and images

  function EntryOf(image: SarusImage, key: string): Entry {
    Entry(key, image.reference.server, image.reference.repositoryNamespace, image.reference.image, image.reference.tag,
          "", Some(image.reference.digest), Some(image.id),
          image.imageFile, image.metadataFile, image.datasize, image.created)
  }

  function OrEmpty(s: Option<string>): string {
    if s.Some? then s.value else ""
  }

  function ImageOf(e: Entry): SarusImage {
    SarusImage(Reference(e.server, e.repositoryNamespace, e.image, e.tag, OrEmpty(e.registryDigest)),
               OrEmpty(e.id), e.datasize, e.created, e.imagePath, e.metadataPath)
  }

  /** An entry of an old version is an image without id and digest; the other fields are those of the entry. */
  lemma OldEntry(image: SarusImage, key: string)
    ensures ImageOf(EntryOf(image, key).(id := None, registryDigest := None)) ==
            image.(id := "", reference := image.reference.(digest := ""))
  {
  }

  // ---------------------------------------------------------------- documents as maps

  predicate DistinctKeys(doc: Document) {
    forall i, j :: 0 <= i < j < |doc| ==> doc[i].uniqueKey != doc[j].uniqueKey
  }

  /** The document as a map from keys to entries; the first entry with a key counts. */
  function View(doc: Document): map<string, Entry> {
    if doc == [] then map[] else View(doc[1..])[doc[0].uniqueKey := doc[0]]
  }

  /** The position of the first entry with this key, as findImageMetadata searches for it. */
  function FirstWithKey(doc: Document, key: string): (i: nat)
    ensures i <= |doc|
    ensures forall j :: 0 <= j < i ==> doc[j].uniqueKey != key
    ensures i < |doc| ==> doc[i].uniqueKey == key
  {
    if doc == [] || doc[0].uniqueKey == key then 0 else 1 + FirstWithKey(doc[1..], key)
  }

  function WithoutKey(doc: Document, key: string): (rest: Document)
    ensures forall e :: e in rest <==> e in doc && e.uniqueKey != key
  {
    if doc == [] then []
    else
      var rest := WithoutKey(doc[1..], key);
      assert doc == [doc[0]] + doc[1..];
      if doc[0].uniqueKey == key then rest else [doc[0]] + rest
  }

  /** Adding drops all entries with the key and appends the new one. */
  function Add(doc: Document, e: Entry): Document {
    WithoutKey(doc, e.uniqueKey) + [e]
  }

  /** Removing erases the first entry with the key. */
  function Remove(doc: Document, key: string): Document {
    if doc == [] then []
    else if doc[0].uniqueKey == key then doc[1..]
    else [doc[0]] + Remove(doc[1..], key)
  }

  lemma {:induction false} RemoveErasesFirst(doc: Document, key: string)
    ensures var i := FirstWithKey(doc, key); Remove(doc, key) == if i < |doc| then doc[..i] + doc[i + 1..] else doc
  {
    if doc != [] && doc[0].uniqueKey != key {
      RemoveErasesFirst(doc[1..], key);
    }
  }

  lemma {:induction false} WithoutKeyDistinct(doc: Document, key: string)
    requires DistinctKeys(doc)
    ensures DistinctKeys(WithoutKey(doc, key))
  {
    if doc != [] {
      WithoutKeyDistinct(doc[1..], key);
      var rest := WithoutKey(doc[1..], key);
      forall e | e in rest
        ensures e.uniqueKey != doc[0].uniqueKey
      {
        assert e in doc[1..];
      }
    }
  }

  lemma AddKeepsDistinct(doc: Document, e: Entry)
    requires DistinctKeys(doc)
    ensures DistinctKeys(Add(doc, e))
  {
    WithoutKeyDistinct(doc, e.uniqueKey);
    var rest := WithoutKey(doc, e.uniqueKey);
    forall i | 0 <= i < |rest|
      ensures rest[i].uniqueKey != e.uniqueKey
    {
      assert rest[i] in rest;
    }
  }

  lemma RemoveKeepsDistinct(doc: Document, key: string)
    requires DistinctKeys(doc)
    ensures DistinctKeys(Remove(doc, key))
  {
    RemoveIsWithoutKey(doc, key);
    WithoutKeyDistinct(doc, key);
  }

  lemma {:induction false} ViewAppend(a: Document, b: Document)
    ensures View(a + b) == View(b) + View(a)
  {
    if a == [] {
      assert a + b == b;
    } else {
      ViewAppend(a[1..], b);
      assert (a + b)[1..] == a[1..] + b;
    }
  }

  lemma {:induction false} ViewKeys(doc: Document, key: string)
    ensures key in View(doc) <==> FirstWithKey(doc, key) < |doc|
    ensures key in View(doc) ==> View(doc)[key] == doc[FirstWithKey(doc, key)]
  {
    if doc != [] && doc[0].uniqueKey != key {
      ViewKeys(doc[1..], key);
    }
  }

  lemma {:induction false} ViewWithoutKey(doc: Document, key: string)
    ensures View(WithoutKey(doc, key)) == View(doc) - {key}
  {
    if doc != [] {
      ViewWithoutKey(doc[1..], key);
      var rest := WithoutKey(doc[1..], key);
      assert ([doc[0]] + rest)[1..] == rest;
    }
  }

  /** Adding is map update, whatever the document held before. */
  lemma AddIsMapUpdate(doc: Document, e: Entry)
    ensures View(Add(doc, e)) == View(doc)[e.uniqueKey := e]
  {
    ViewWithoutKey(doc, e.uniqueKey);
    ViewAppend(WithoutKey(doc, e.uniqueKey), [e]);
    assert View([e]) == map[e.uniqueKey := e];
  }

  lemma {:induction false} WithoutAbsentKey(doc: Document, key: string)
    requires forall e :: e in doc ==> e.uniqueKey != key
    ensures WithoutKey(doc, key) == doc
  {
    if doc != [] {
      WithoutAbsentKey(doc[1..], key);
    }
  }

  lemma {:induction false} RemoveIsWithoutKey(doc: Document, key: string)
    requires DistinctKeys(doc)
    ensures Remove(doc, key) == WithoutKey(doc, key)
  {
    if doc != [] {
      if doc[0].uniqueKey == key {
        forall e | e in doc[1..]
          ensures e.uniqueKey != key
        {
          var j :| 0 <= j < |doc[1..]| && doc[1..][j] == e;
          assert doc[0].uniqueKey != doc[j + 1].uniqueKey;
        }
        WithoutAbsentKey(doc[1..], key);
      } else {
        RemoveIsWithoutKey(doc[1..], key);
      }
    }
  }

  /** Removing is map removal, as long as keys are distinct. */
  lemma RemoveIsMapRemoval(doc: Document, key: string)
    requires DistinctKeys(doc)
    ensures View(Remove(doc, key)) == View(doc) - {key}
  {
    RemoveIsWithoutKey(doc, key);
    ViewWithoutKey(doc, key);
  }

  /**
  Adding an image leaves the lookup of every reference of the same kind that names
  another image unchanged.
   */
  lemma AddKeepsOtherLookups(doc: Document, image: SarusImage, other: Reference)
    requires WellFormed(image.reference) && WellFormed(other)
    requires UniqueKey(image.reference).Success? && UniqueKey(other).Success?
    requires (image.reference.tag == "") == (other.tag == "")
    requires if other.tag == "" then other != image.reference else other.(digest := "") != image.reference.(digest := "")
    ensures var after := View(Add(doc, EntryOf(image, UniqueKey(image.reference).value)));
            var key := UniqueKey(other).value;
            (key in after <==> key in View(doc)) && (key in after ==> after[key] == View(doc)[key])
  {
    KeysEqualIff(image.reference, other);
    AddIsMapUpdate(doc, EntryOf(image, UniqueKey(image.reference).value));
  }

  // ---------------------------------------------------------------- the store

  datatype StoreError = Malformed | CannotFindImage

  class Store {
    var images: Document      // the "images" array of metadata.json
    var backing: set<string>  // the squashfs and metadata files that exist

    ghost predicate Valid()
      reads this
    {
      DistinctKeys(images)
    }

    /** ImageStore's constructor: an existing metadata file is kept, a missing one is created empty. */
    constructor (metadata: Option<Document>, files: set<string>)
      requires metadata.Some? ==> DistinctKeys(metadata.value)
      ensures Valid() && backing == files
      ensures View(images) == if metadata.Some? then View(metadata.value) else map[]
      ensures metadata.Some? ==> images == metadata.value
    {
      images := if metadata.Some? then metadata.value else [];
      backing := files;
    }

    method FindImageMetadata(key: string) returns (found: nat)
      ensures found == FirstWithKey(images, key)
      ensures found < |images| <==> key in View(images)
      ensures found < |images| ==> images[found] == View(images)[key]
    {
      found := 0;
      while found < |images| && images[found].uniqueKey != key
        invariant found <= |images|
        invariant forall j :: 0 <= j < found ==> images[j].uniqueKey != key
      {
        found := found + 1;
      }
      FirstWithKeyIs(images, key, found);
      ViewKeys(images, key);
    }

    method AddImage(image: SarusImage) returns (result: Result<(), StoreError>)
      requires Valid()
      modifies this`images
      ensures Valid()
      ensures result.Success? <==> UniqueKey(image.reference).Success?
      ensures result.Success? ==>
                var key := UniqueKey(image.reference).value;
                && View(images) == old(View(images))[key := EntryOf(image, key)]
                && ImageOf(View(images)[key]) == image
                && images == Add(old(images), EntryOf(image, key))
      ensures result.Failure? ==> images == old(images)
    {
      var key := UniqueKey(image.reference);
      if key.Failure? {
        return Failure(Malformed);
      }
      var entry := EntryOf(image, key.value);
      EraseEntries(key.value);
      images := images + [entry];
      AddKeepsDistinct(old(images), entry);
      AddIsMapUpdate(old(images), entry);
      return Success(());
    }

    /** The loop of addImage that erases the previous entries with the same key. */
    method EraseEntries(key: string)
      modifies this`images
      ensures images == WithoutKey(old(images), key)
    {
      var i := 0;
      assert images[..i] == [] && images[i..] == images;
      while i < |images|
        invariant i <= |images|
        invariant WithoutKey(old(images), key) == images[..i] + WithoutKey(images[i..], key)
        decreases |images| - i
      {
        WithoutKeyStep(images, i, key);
        if images[i].uniqueKey == key {
          images := images[..i] + images[i + 1..];
        } else {
          i := i + 1;
        }
      }
    }

    method RemoveRepositoryMetadataEntry(key: string, found: nat)
      requires Valid()
      requires found == FirstWithKey(images, key) && found < |images|
      modifies this`images
      ensures Valid()
      ensures images == Remove(old(images), key)
      ensures View(images) == old(View(images)) - {key}
    {
      RemoveErasesFirst(images, key);
      RemoveKeepsDistinct(images, key);
      RemoveIsMapRemoval(images, key);
      images := images[..found] + images[found + 1..];
    }

    method RemoveImageBackingFiles(e: Entry)
      modifies this`backing
      ensures backing == old(backing) - {e.imagePath, e.metadataPath}
    {
      backing := backing - {e.imagePath, e.metadataPath};
    }

    method RemoveImage(reference: Reference) returns (result: Result<(), StoreError>)
      requires Valid()
      modifies this
      ensures Valid()
      ensures result.Success? <==> UniqueKey(reference).Success? && UniqueKey(reference).value in old(View(images))
      ensures result.Success? ==>
                var key := UniqueKey(reference).value;
                var entry := old(View(images)[key]);
                && View(images) == old(View(images)) - {key}
                && backing == old(backing) - {entry.imagePath, entry.metadataPath}
                && images == Remove(old(images), key)
      ensures result.Failure? ==> images == old(images) && backing == old(backing)
    {
      var key := UniqueKey(reference);
      if key.Failure? {
        return Failure(Malformed);
      }
      var found := FindImageMetadata(key.value);
      if found == |images| {
        return Failure(CannotFindImage);
      }
      RemoveImageBackingFiles(images[found]);
      RemoveRepositoryMetadataEntry(key.value, found);
      return Success(());
    }

    /** A lookup returns the stored image intact; an entry whose files are gone is cleaned up. */
    method FindImage(reference: Reference) returns (result: Result<Option<SarusImage>, StoreError>)
      requires Valid()
      modifies this
      ensures Valid()
      ensures result.Success? <==> UniqueKey(reference).Success?
      ensures result.Failure? ==> images == old(images) && backing == old(backing)
      ensures result.Success? ==>
                var key := UniqueKey(reference).value;
                if key !in old(View(images)) then
                  result.value == None && images == old(images) && backing == old(backing)
                else
                  var entry := old(View(images)[key]);
                  if entry.imagePath in old(backing) && entry.metadataPath in old(backing) then
                    result.value == Some(ImageOf(entry)) && images == old(images) && backing == old(backing)
                  else
                    && result.value == None
                    && View(images) == old(View(images)) - {key}
                    && backing == old(backing) - {entry.imagePath, entry.metadataPath}
    {
      var key := UniqueKey(reference);
      if key.Failure? {
        return Failure(Malformed);
      }
      var found := FindImageMetadata(key.value);
      if found == |images| {
        return Success(None);
      }
      var entry := images[found];
      if entry.imagePath in backing && entry.metadataPath in backing {
        return Success(Some(ImageOf(entry)));
      }
      RemoveImageBackingFiles(entry);
      found := FindImageMetadata(key.value);
      if found < |images| {
        RemoveRepositoryMetadataEntry(key.value, found);
      }
      return Success(None);
    }

    /** Listing when every entry has its files: the images of all entries, in document order. */
    method ListImages() returns (list: seq<SarusImage>)
      requires forall e :: e in images ==> e.imagePath in backing && e.metadataPath in backing
      ensures |list| == |images|
      ensures forall i :: 0 <= i < |images| ==> list[i] == ImageOf(images[i])
    {
      list := [];
      for i := 0 to |images|
        invariant |list| == i
        invariant forall j :: 0 <= j < i ==> list[j] == ImageOf(images[j])
      {
        list := list + [ImageOf(images[i])];
      }
    }
  }

  lemma {:induction false} FirstWithKeyIs(doc: Document, key: string, i: nat)
    requires i <= |doc|
    requires forall j :: 0 <= j < i ==> doc[j].uniqueKey != key
    requires i < |doc| ==> doc[i].uniqueKey == key
    ensures FirstWithKey(doc, key) == i
  {
  }

  lemma WithoutKeyStep(doc: Document, i: nat, key: string)
    requires i < |doc|
    ensures doc[..i] + WithoutKey(doc[i..], key) ==
            if doc[i].uniqueKey == key then
              var erased := doc[..i] + doc[i + 1..]; erased[..i] + WithoutKey(erased[i..], key)
            else doc[..i + 1] + WithoutKey(doc[i + 1..], key)
  {
    assert doc[i..][1..] == doc[i + 1..];
    var erased := doc[..i] + doc[i + 1..];
    assert erased[..i] == doc[..i] && erased[i..] == doc[i + 1..];
    assert doc[..i + 1] == doc[..i] + [doc[i]];
  }
}
