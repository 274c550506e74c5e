/**
 The upload insertion flow's pure parts: the default uploader's URL, the
 Markdown image reference, and how it is spliced onto the body.
 */
module Upload {
  import opened JsText
  import opened UriEncoding

  /** A selected file; only its name takes part in the flow. */
  datatype File = File(name: string)

  /** How the uploader's promise settled. */
  datatype Settlement = Resolved(url: string) | Rejected

  /** `upload ?? defaultUpload`: whether an `upload` prop is present when the handler runs. */
  datatype Uploader = DefaultUploader | InjectedUploader

  /** An upload between its start and its settlement: the file and the uploader chosen for it. */
  datatype PendingUpload = PendingUpload(file: File, uploader: Uploader)

  const FilesBase: string := "https://files.example.com/"

  /** The file name as the default uploader sanitises it, before URL encoding. */
  function SafeNameText(name: string): (r: string)
    ensures NoSpace(r)
    ensures |r| <= |name|
  {
    HyphenateSpaces(Lower(name))
  }

  /** `defaultUpload`: the files host followed by the encoded, sanitised name. */
  function DefaultUpload(name: string): (url: string)
    ensures FilesBase <= url
    ensures UriSafe(url[|FilesBase|..])
    ensures url[|FilesBase|..] == EncodeUriComponent(SafeNameText(name))
  {
    FilesBase + EncodeUriComponent(SafeNameText(name))
  }

  /** What awaiting the chosen uploader yields: the default one always resolves. */
  function Settle(uploader: Uploader, file: File, injected: Settlement): (s: Settlement)
    ensures uploader == DefaultUploader ==> s == Resolved(DefaultUpload(file.name))
    ensures uploader == InjectedUploader ==> s == injected
  {
    match uploader
    case DefaultUploader => Resolved(DefaultUpload(file.name))
    case InjectedUploader => injected
  }

  /** A name that is already lower-case, space-free and unreserved is used verbatim. */
  lemma {:induction false} DefaultUploadVerbatim(name: string)
    requires forall i :: 0 <= i < |name| ==> IsUnreserved(name[i]) && !('A' <= name[i] <= 'Z')
    ensures DefaultUpload(name) == FilesBase + name
  {
    assert Lower(name) == name;
    HyphenateNoSpace(name);
    EncodeUnreservedIdentity(name);
  }

  /** "Summer Trip.JPG" lower-cases to "summer trip.jpg". */
  lemma LowerExample()
    ensures Lower("Summer Trip.JPG") == "summer trip.jpg"
  {
    var name := "Summer Trip.JPG";
    forall i | 0 <= i < |name| ensures Lower(name)[i] == "summer trip.jpg"[i] {
    }
  }

  /** A name whose sanitised form is all unreserved reaches the URL unescaped. */
  lemma DefaultUploadUnescaped(name: string, safe: string)
    requires SafeNameText(name) == safe
    requires forall i :: 0 <= i < |safe| ==> IsUnreserved(safe[i])
    ensures DefaultUpload(name) == FilesBase + safe
  {
    EncodeUnreservedIdentity(safe);
  }

  /** "Summer Trip.JPG" is sanitised to "summer-trip.jpg". */
  lemma SafeNameExample()
    ensures SafeNameText("Summer Trip.JPG") == "summer-trip.jpg"
  {
    var first, second := "summer", "trip.jpg";
    LowerExample();
    assert "summer trip.jpg" == first + (" " + second);
    HyphenateOneGap(first, second);
    assert first + ("-" + second) == "summer-trip.jpg";
  }

  /**
   "Summer Trip.JPG" is uploaded by default to the files host as "summer-trip.jpg".
   The literals come in through the requires: with them written into the
   ensures, the solver unfolds `DefaultUpload` on the literal name and runs
   out of resource.
   */
  lemma DefaultUploadExample(name: string, safe: string)
    requires name == "Summer Trip.JPG" && safe == "summer-trip.jpg"
    ensures DefaultUpload(name) == FilesBase + safe
  {
    assert SafeNameText(name) == safe by { SafeNameExample(); }
    DefaultUploadUnescaped(name, safe);
  }

  // -------------------------------------------------------------- the splice

  /** The inserted Markdown: `![name](url)` and a newline. */
  function ImageReference(name: string, url: string): (r: string)
    ensures |r| == |name| + |url| + 6
  {
    "![" + name + "](" + url + ")\n"
  }

  /** The reference reads back as its parts: the name between `![` and `](`, the URL between `](` and `)`. */
  lemma ImageReferenceFields(name: string, url: string)
    ensures var r := ImageReference(name, url);
      && r[..2] == "![" && r[2..2 + |name|] == name
      && r[2 + |name|..4 + |name|] == "](" && r[4 + |name|..|r| - 2] == url
      && r[|r| - 2..] == ")\n"
  {
  }

  /** The body after a successful upload. */
  function Spliced(body: string, name: string, url: string): (r: string)
    ensures TrimEnd(body) <= r
    ensures |r| > 0 && r[|r| - 1] == '\n'
  {
    var trimmed := TrimEnd(body);
    var prefix := if |trimmed| > 0 then trimmed + "\n\n" else "";
    prefix + ImageReference(name, url)
  }

  /** A body with text keeps that text, minus trailing white space, then a blank line, then the reference. */
  lemma SplicedAfterText(body: string, name: string, url: string)
    requires !AllSpace(body)
    ensures Spliced(body, name, url) == TrimEnd(body) + "\n\n" + ImageReference(name, url)
  {
    TrimEndEmptyIff(body);
  }

  /** An empty or blank body is replaced by the reference alone. */
  lemma SplicedOntoBlank(body: string, name: string, url: string)
    requires AllSpace(body)
    ensures Spliced(body, name, url) == ImageReference(name, url)
  {
    TrimEndEmptyIff(body);
  }

  /** Two uploads in a row leave both references, in order, separated by a blank line. */
  lemma SplicedTwice(body: string, n1: string, u1: string, n2: string, u2: string)
    ensures var once := Spliced(body, n1, u1);
      Spliced(once, n2, u2) == once[..|once| - 1] + "\n\n" + ImageReference(n2, u2)
  {
    var once := Spliced(body, n1, u1);
    var clean := once[..|once| - 1];
    assert once == clean + "\n";
    assert clean[|clean| - 1] == ')';
    TrimEndUnique(clean, "\n");
    assert !AllSpace(once) by {
      assert !IsSpace(once[|once| - 2]);
    }
    SplicedAfterText(once, n2, u2);
  }

  /** A body that does not end in white space is kept whole in front of the separator. */
  lemma SplicedAfterCleanText(body: string, name: string, url: string)
    requires body != [] && EndsClean(body)
    ensures Spliced(body, name, url) == body + "\n\n" + ImageReference(name, url)
  {
    assert body + [] == body;
    TrimEndUnique(body, []);
  }

  lemma HelloReferenceText()
    ensures "Hello" + "\n\n" + ImageReference("My Pic.png", "https://x/y.png")
         == "Hello\n\n![My Pic.png](https://x/y.png)\n"
  {
  }

  /** The worked example with text: "Hello" gains a blank line and the reference. */
  lemma SplicedExampleText()
    ensures Spliced("Hello", "My Pic.png", "https://x/y.png") == "Hello\n\n![My Pic.png](https://x/y.png)\n"
  {
    SplicedAfterCleanText("Hello", "My Pic.png", "https://x/y.png");
    HelloReferenceText();
  }

  /** The worked example on an empty body: the reference alone, no separator. */
  lemma SplicedExampleEmpty()
    ensures Spliced("", "My Pic.png", "https://x/y.png") == "![My Pic.png](https://x/y.png)\n"
  {
  }

}
