/** The site's SQLite database (database.py): the `images` table of picture metadata and the
    `admins` table of credentials, each kept as a map keyed by its UNIQUE column. The SQL text
    and connection handling are the storage mechanism and are not modelled. Timestamps are
    readings `now` of an abstract clock supplied by the caller. Password hashing and checking
    are foreign calls: a hash is opaque text produced outside the model, and the checker is a
    parameter about which nothing is assumed. */
module Database {
  import opened Wrappers

  /** What the password hasher returns; opaque to the model. */
  type Hash = string

  /** A row of `images` without its id. */
  datatype ImageRow = ImageRow(title: Option<string>, description: Option<string>,
                               uploadedAt: nat, updatedAt: nat)

  /** What `get_image_metadata` returns; SQL NULL is None. */
  datatype Metadata = Metadata(title: Option<string>, description: Option<string>)

  /** The account created on an empty `admins` table (its password is hashed outside). */
  const DefaultAdminName: string := "admin"

  /** The title and description stored for `filename`, both None when it has no row. */
  function MetadataOf(images: map<string, ImageRow>, filename: string): (m: Metadata)
    ensures filename !in images ==> m == Metadata(None, None)
    ensures filename in images ==> m.title == images[filename].title
                                   && m.description == images[filename].description
  {
    if filename in images then Metadata(images[filename].title, images[filename].description)
    else Metadata(None, None)
  }

  /** The table after `update_image_metadata`: the row is inserted when the filename has none
      and updated in place otherwise, so filenames stay unique and no other row changes. */
  function Upsert(images: map<string, ImageRow>, filename: string, title: Option<string>,
                  description: Option<string>, now: nat): (r: map<string, ImageRow>)
    ensures r.Keys == images.Keys + {filename}
    ensures MetadataOf(r, filename) == Metadata(title, description)
    ensures forall f :: f in images && f != filename ==> r[f] == images[f]
    ensures r[filename].updatedAt == now
    ensures r[filename].uploadedAt == if filename in images then images[filename].uploadedAt else now
  {
    if filename in images then
      images[filename := images[filename].(title := title, description := description, updatedAt := now)]
    else
      images[filename := ImageRow(title, description, now, now)]
  }

  /** The table after `delete_image_metadata`: the row is gone, other rows are untouched,
      and a filename without a row leaves the table as it was. */
  function Delete(images: map<string, ImageRow>, filename: string): (r: map<string, ImageRow>)
    ensures r.Keys == images.Keys - {filename}
    ensures MetadataOf(r, filename) == Metadata(None, None)
    ensures forall f :: f in r ==> r[f] == images[f]
    ensures filename !in images ==> r == images
  {
    images - {filename}
  }

  /** Deleting twice is deleting once. */
  lemma DeleteIdempotent(images: map<string, ImageRow>, filename: string)
    ensures Delete(Delete(images, filename), filename) == Delete(images, filename)
  {
  }

  /** Upsert and delete leave what `get_image_metadata` returns for every other filename. */
  lemma OtherRowsUnchanged(images: map<string, ImageRow>, filename: string, other: string,
                           title: Option<string>, description: Option<string>, now: nat)
    requires other != filename
    ensures MetadataOf(Upsert(images, filename, title, description, now), other) == MetadataOf(images, other)
    ensures MetadataOf(Delete(images, filename), other) == MetadataOf(images, other)
  {
  }

  /** What `verify_admin` decides: the user has a row and its hash checks against the password. */
  predicate Verifies(admins: map<string, Hash>, username: string, password: string,
                     check: (Hash, string) -> bool)
  {
    username in admins && check(admins[username], password)
  }

  /** The table after `change_password`: only the named user's hash changes, and an unknown
      username changes nothing. */
  function ChangeHash(admins: map<string, Hash>, username: string, newHash: Hash): (r: map<string, Hash>)
    ensures r.Keys == admins.Keys
    ensures username in admins ==> r[username] == newHash
    ensures forall u :: u in admins && u != username ==> r[u] == admins[u]
  {
    if username in admins then admins[username := newHash] else admins
  }

  /** After a password change the user is checked against the new hash only; nobody else's
      verification changes. */
  lemma VerifyAfterChange(admins: map<string, Hash>, username: string, newHash: Hash,
                          who: string, password: string, check: (Hash, string) -> bool)
    ensures who == username && username in admins ==>
              (Verifies(ChangeHash(admins, username, newHash), who, password, check) <==> check(newHash, password))
    ensures who != username || username !in admins ==>
              (Verifies(ChangeHash(admins, username, newHash), who, password, check) <==> Verifies(admins, who, password, check))
  {
  }

  class MetadataStore {
    var images: map<string, ImageRow>
    var admins: map<string, Hash>

    /** The tables as found in the database file. */
    constructor (images: map<string, ImageRow>, admins: map<string, Hash>)
      ensures this.images == images && this.admins == admins
    {
      this.images := images;
      this.admins := admins;
    }

    /** `create_admin`: inserts a row; the UNIQUE constraint rejects a username that already
        has one (sqlite3 raises, which is `ok == false` here, and nothing is inserted). */
    method CreateAdmin(username: string, hash: Hash) returns (ok: bool)
      modifies this
      ensures ok <==> username !in old(admins)
      ensures admins == if ok then old(admins)[username := hash] else old(admins)
      ensures images == old(images)
    {
      ok := username !in admins;
      if ok {
        admins := admins[username := hash];
      }
    }

    /** `create_default_admin`: counts the admins and, only when there are none, creates
        `DefaultAdminName` with `defaultHash`, which is what the hasher returned for the
        default password "pass123". The hasher salts each hash, so the hash is an argument
        rather than a function of the password. */
    method CreateDefaultAdmin(defaultHash: Hash)
      modifies this
      ensures old(admins) == map[] ==> admins == map[DefaultAdminName := defaultHash]
      ensures old(admins) != map[] ==> admins == old(admins)
      ensures images == old(images)
    {
      var count := |admins|;
      if count == 0 {
        var _ := CreateAdmin(DefaultAdminName, defaultHash);
      }
    }

    /** `get_image_metadata`: never fails; a filename without a row gets two Nones. */
    method GetImageMetadata(filename: string) returns (m: Metadata)
      ensures filename !in images ==> m == Metadata(None, None)
      ensures filename in images ==> m.title == images[filename].title
                                     && m.description == images[filename].description
    {
      if filename in images {
        var row := images[filename];
        m := Metadata(row.title, row.description);
      } else {
        m := Metadata(None, None);
      }
    }

    /** `update_image_metadata`: looks the filename up, then updates its row or inserts one. */
    method UpdateImageMetadata(filename: string, title: Option<string>, description: Option<string>, now: nat)
      modifies this
      ensures images == Upsert(old(images), filename, title, description, now)
      ensures admins == old(admins)
    {
      var found := filename in images;
      if found {
        images := images[filename := images[filename].(title := title, description := description, updatedAt := now)];
      } else {
        images := images[filename := ImageRow(title, description, now, now)];
      }
    }

    /** `delete_image_metadata`. */
    method DeleteImageMetadata(filename: string)
      modifies this
      ensures images == Delete(old(images), filename)
      ensures admins == old(admins)
    {
      images := images - {filename};
    }

    /** `verify_admin`: false for an unknown username whatever the password. */
    method VerifyAdmin(username: string, password: string, check: (Hash, string) -> bool) returns (ok: bool)
      ensures ok <==> Verifies(admins, username, password, check)
      ensures username !in admins ==> !ok
    {
      ok := false;
      if username in admins {
        var hash := admins[username];
        ok := check(hash, password);
      }
    }

    /** `change_password`: replaces the user's hash and reports success, also when the
        username has no row and nothing changes. */
    method ChangePassword(username: string, newHash: Hash) returns (ok: bool)
      modifies this
      ensures ok
      ensures admins == ChangeHash(old(admins), username, newHash)
      ensures images == old(images)
    {
      if username in admins {
        admins := admins[username := newHash];
      }
      ok := true;
    }
  }
}
