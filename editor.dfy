/**
 The editor session: the front-matter fields, the body, the edit/preview
 mode and the uploading flag, updated by the editor's event handlers. The
 MDX serialiser is supplied from outside, and the uploader in use is given
 to each upload as it starts.
 */
module Editor {
  import opened Wrappers
  import opened JsText
  import opened FrontMatter
  import opened Upload

  datatype Mode = Edit | Preview

  /** The mode updater: edit becomes preview and preview becomes edit. */
  function Toggled(m: Mode): (r: Mode)
    ensures r != m
  {
    if m == Edit then Preview else Edit
  }

  /** Toggling twice restores the mode. */
  lemma ToggledTwice(m: Mode)
    ensures Toggled(Toggled(m)) == m
  {
  }

  /** What the serialiser is handed on save. */
  datatype MdxDocument = MdxDocument(data: Fields, content: string)

  class PileEditor {
    /** `Object.keys(schema)`, in order. */
    var schemaKeys: seq<string>
    var frontMatter: Fields
    var body: string
    var mode: Mode
    var isUploading: bool
    /** The MDX serialiser; its text format is not part of this model. */
    const serializeMdx: MdxDocument -> string

    /** The field set has exactly the schema's keys. */
    ghost predicate Valid()
      reads this
    {
      frontMatter.Keys == KeySet(schemaKeys)
    }

    /** Mounting the editor: every schema key holds "", the body is empty, editing, not uploading. */
    constructor (schemaKeys: seq<string>, serializeMdx: MdxDocument -> string)
      ensures Valid()
      ensures this.schemaKeys == schemaKeys
      ensures forall k :: k in frontMatter ==> frontMatter[k] == ""
      ensures body == "" && mode == Edit && !isUploading
      ensures this.serializeMdx == serializeMdx
    {
      var fields := InitialFields(schemaKeys);
      this.schemaKeys := schemaKeys;
      this.serializeMdx := serializeMdx;
      frontMatter := fields;
      body := "";
      mode := Edit;
      isUploading := false;
    }

    /** The effect on a change of schema keys: resync the fields, leave everything else. */
    method UpdateSchema(newKeys: seq<string>)
      modifies this`schemaKeys, this`frontMatter
      ensures Valid()
      ensures schemaKeys == newKeys
      ensures frontMatter == Resynced(old(frontMatter), newKeys)
    {
      frontMatter := ResyncFields(frontMatter, newKeys);
      schemaKeys := newKeys;
    }

    /** Typing into the input of field `key`. */
    method ChangeField(key: string, value: string)
      modifies this`frontMatter
      ensures frontMatter == WithField(old(frontMatter), key, value)
      ensures old(Valid()) && key in schemaKeys ==> Valid()
    {
      frontMatter := WithField(frontMatter, key, value);
    }

    /** Typing into the body. */
    method ChangeBody(text: string)
      modifies this`body
      ensures body == text
    {
      body := text;
    }

    /** Submitting the form: the one string handed to `onSave`; no state changes. */
    method Submit() returns (mdx: string)
      ensures mdx == serializeMdx(MdxDocument(frontMatter, body))
    {
      mdx := serializeMdx(MdxDocument(frontMatter, body));
    }

    method ToggleMode()
      modifies this`mode
      ensures mode == Toggled(old(mode))
    {
      mode := Toggled(mode);
    }

    /**
     The part of the file-change handler before the upload is awaited: with
     no file nothing happens; otherwise the flag goes up, and the first file
     is returned with `uploader`, the choice `upload ?? defaultUpload` makes
     at this moment.
     */
    method BeginUpload(files: seq<File>, uploader: Uploader) returns (pending: Option<PendingUpload>)
      modifies this`isUploading
      ensures files == [] ==> pending == None && isUploading == old(isUploading)
      ensures files != [] ==> pending == Some(PendingUpload(files[0], uploader)) && isUploading
    {
      if files == [] {
        pending := None;
        return;
      }
      isUploading := true;
      pending := Some(PendingUpload(files[0], uploader));
    }

    /**
     The part after the upload settles: on success the reference is spliced
     onto the body as it is now; on failure the body stays; the flag goes down.
     `injected` is how an injected uploader's promise settled; the default
     uploader does not consult it.
     */
    method CompleteUpload(pending: PendingUpload, injected: Settlement)
      modifies this`body, this`isUploading
      ensures var s := Settle(pending.uploader, pending.file, injected);
        body == if s.Resolved? then Spliced(old(body), pending.file.name, s.url) else old(body)
      ensures !isUploading
    {
      var settled := Settle(pending.uploader, pending.file, injected);
      match settled {
        case Resolved(url) =>
          body := Spliced(body, pending.file.name, url);
        case Rejected =>
      }
      isUploading := false;
    }

    /** The whole file-change handler when nothing interleaves with the upload. */
    method HandleFileChange(files: seq<File>, uploader: Uploader, injected: Settlement)
      modifies this`body, this`isUploading
      ensures files == [] ==> body == old(body) && isUploading == old(isUploading)
      ensures files != [] ==>
        var s := Settle(uploader, files[0], injected);
        && body == (if s.Resolved? then Spliced(old(body), files[0].name, s.url) else old(body))
        && !isUploading
    {
      var pending := BeginUpload(files, uploader);
      match pending {
        case None =>
        case Some(p) =>
          CompleteUpload(p, injected);
      }
    }
  }

  /** Field edits and a schema change, driven as a user would. */
  method FieldsSession(serializeMdx: MdxDocument -> string)
  {
    var editor := new PileEditor(["title", "slug"], serializeMdx);
    editor.ChangeField("title", "Pile");
    assert editor.Valid() && editor.frontMatter["slug"] == "";
    editor.UpdateSchema(["title", "date"]);
    assert editor.frontMatter == map["title" := "Pile", "date" := ""];
    editor.ToggleMode();
    assert editor.mode == Preview;
    editor.ToggleMode();
    assert editor.mode == Edit && editor.frontMatter["title"] == "Pile";
  }

  /** The worked upload example, with a save while the upload is in flight. */
  method UploadSession(serializeMdx: MdxDocument -> string)
  {
    var editor := new PileEditor(["title"], serializeMdx);
    editor.ChangeBody("Hello");
    var pending := editor.BeginUpload([File("My Pic.png")], InjectedUploader);
    assert editor.isUploading;
    var early := editor.Submit();
    assert editor.frontMatter == map["title" := ""];
    assert early == serializeMdx(MdxDocument(map["title" := ""], "Hello"));
    editor.CompleteUpload(pending.value, Resolved("https://x/y.png"));
    SplicedExampleText();
    assert editor.body == "Hello\n\n![My Pic.png](https://x/y.png)\n" && !editor.isUploading;
    var nothing := editor.BeginUpload([], DefaultUploader);
    assert nothing == None && !editor.isUploading;
  }

}
