/** `make_text`: the MediaWiki markup of a term page, built from the page name
    and a dictionary of attributes. Uploading a media file is network I/O; it
    is modelled as the log of file names handed to `upload`, in call order. */
module WikiService {
  import opened Wrappers

  /** An attribute value: text, or a media file given by name and description. */
  datatype AttrValue = Plain(text: string) | File(filename: string, description: string)

  /** The markup and the files uploaded while producing it. */
  datatype Page = Page(text: string, uploads: seq<string>)

  /** A media section whose value is text cannot be indexed by `'filename'`; the
      files uploaded before that point stay uploaded. */
  datatype WikiError = NotAFile(section: string, uploaded: seq<string>)

  /** `section_order`: four text sections, then three media sections. */
  const SectionOrder: seq<string> := ["Description", "Part of speech", "Synonyms", "Similar words", "Photo", "Audio", "Video"]

  /** The lower-case keys whose presence switches the media block on. */
  const MediaKeys: set<string> := {"audio", "photo", "video"}

  /** The lower-case keys of the flag that is computed and never used. */
  const AdditionalKeys: set<string> := {"synonyms", "similar_words"}

  function TextSections(): seq<string>
  {
    SectionOrder[..4]
  }

  function MediaSections(): seq<string>
  {
    SectionOrder[4..]
  }

  /** The keys that can influence the page at all. */
  function Relevant(): set<string>
  {
    (set k | k in SectionOrder) + MediaKeys
  }

  predicate HasMedia(attrs: map<string, AttrValue>)
  {
    exists k :: k in attrs && k in MediaKeys
  }

  function Header(pagename: string): string
  {
    "**" + pagename + "**\n"
  }

  /** `str(value)`: text as it is; a file by the `repr` of its dictionary
      (quotes inside the strings are not escaped here). */
  function Show(v: AttrValue): string
  {
    match v
    case Plain(t) => t
    case File(fn, d) => "{'filename': '" + fn + "', 'description': '" + d + "'}"
  }

  /** One text section: its heading and its value, or nothing when absent. */
  function Entry(attrs: map<string, AttrValue>, sec: string): string
  {
    if sec in attrs then ("==" + sec + "==\n") + (Show(attrs[sec]) + "\n") else ""
  }

  /** The text sections among `secs`, in the order given. */
  function TextBlock(attrs: map<string, AttrValue>, secs: seq<string>): string
  {
    if |secs| == 0 then ""
    else TextBlock(attrs, secs[..|secs| - 1]) + Entry(attrs, secs[|secs| - 1])
  }

  /** The media sections among `secs`, in the order given, with the uploads
      they make; a section holding text fails. */
  function MediaBlock(attrs: map<string, AttrValue>, secs: seq<string>): Result<(string, seq<string>), WikiError>
  {
    if |secs| == 0 then Success(("", []))
    else
      match MediaBlock(attrs, secs[..|secs| - 1])
      case Failure(e) => Failure(e)
      case Success(done) =>
        var sec := secs[|secs| - 1];
        if sec !in attrs then Success(done)
        else
          match attrs[sec]
          case Plain(_) => Failure(NotAFile(sec, done.1))
          case File(fn, d) => Success((done.0 + ("===" + sec + "===\n") + ("[[File:" + fn + "|" + d + "]]\n"), done.1 + [fn]))
  }

  /** The page as a whole, independent of the order in which the dictionary
      yields its keys. */
  function Rendered(pagename: string, attrs: map<string, AttrValue>): Result<Page, WikiError>
  {
    var head := Header(pagename) + TextBlock(attrs, TextSections());
    if !HasMedia(attrs) then Success(Page(head, []))
    else
      match MediaBlock(attrs, MediaSections())
      case Failure(e) => Failure(e)
      case Success(media) => Success(Page(head + "==Media==\n" + media.0, media.1))
  }

  /** The first loop of `make_text`: whether some key is a lower-case media key.
      (The second flag it computes, for `synonyms`/`similar_words`, is never read.) */
  method MediaFlag(keys: seq<string>) returns (mediaInfo: bool)
    ensures mediaInfo <==> exists j :: 0 <= j < |keys| && keys[j] in MediaKeys
  {
    mediaInfo := false;
    var additionalInfo := false;
    var i := 0;
    while i < |keys|
      invariant 0 <= i <= |keys|
      invariant mediaInfo <==> exists j :: 0 <= j < i && keys[j] in MediaKeys
    {
      if keys[i] in MediaKeys {
        mediaInfo := true;
      }
      if keys[i] in AdditionalKeys {
        additionalInfo := true;
      }
      i := i + 1;
    }
  }

  /** The loop over the four text sections. */
  method TextLoop(attrs: map<string, AttrValue>, start: string) returns (text: string)
    ensures text == start + TextBlock(attrs, TextSections())
  {
    text := start;
    var n := 0;
    while n < 4
      invariant 0 <= n <= 4
      invariant text == start + TextBlock(attrs, SectionOrder[..n])
    {
      var sec := SectionOrder[n];
      TextBlockStep(attrs, n);
      ghost var before := text;
      if sec in attrs {
        text := text + ("==" + sec + "==\n");
        text := text + (Show(attrs[sec]) + "\n");
        Assoc(before, "==" + sec + "==\n", Show(attrs[sec]) + "\n");
      }
      Assoc(start, TextBlock(attrs, SectionOrder[..n]), Entry(attrs, sec));
      n := n + 1;
    }
  }

  lemma Assoc(a: string, b: string, c: string)
    ensures (a + b) + c == a + (b + c)
  {
  }

  lemma TextBlockStep(attrs: map<string, AttrValue>, n: nat)
    requires n < |SectionOrder|
    ensures TextBlock(attrs, SectionOrder[..n + 1]) == TextBlock(attrs, SectionOrder[..n]) + Entry(attrs, SectionOrder[n])
  {
    assert SectionOrder[..n + 1][..n] == SectionOrder[..n];
  }

  /** The loop over the three media sections, uploading each file before its link. */
  method MediaLoop(attrs: map<string, AttrValue>) returns (r: Result<(string, seq<string>), WikiError>)
    ensures r == MediaBlock(attrs, MediaSections())
  {
    var uploads: seq<string> := [];
    var media := "";
    var n := 4;
    while n < 7
      invariant 4 <= n <= 7
      invariant MediaBlock(attrs, SectionOrder[4..n]) == Success((media, uploads))
    {
      var sec := SectionOrder[n];
      assert SectionOrder[4..n + 1][..n - 4] == SectionOrder[4..n];
      if sec in attrs {
        media := media + ("===" + sec + "===\n");
        match attrs[sec]
        case Plain(_) =>
          FailureSticks(attrs, SectionOrder[4..n + 1], SectionOrder[n + 1..7]);
          assert SectionOrder[4..n + 1] + SectionOrder[n + 1..7] == MediaSections();
          return Failure(NotAFile(sec, uploads));
        case File(fn, d) =>
          uploads := uploads + [fn];
          media := media + ("[[File:" + fn + "|" + d + "]]\n");
      }
      n := n + 1;
    }
    assert SectionOrder[4..7] == MediaSections();
    return Success((media, uploads));
  }

  /** Once a media section has failed, the sections after it change nothing. */
  lemma {:induction false} FailureSticks(attrs: map<string, AttrValue>, secs: seq<string>, more: seq<string>)
    requires MediaBlock(attrs, secs).Failure?
    ensures MediaBlock(attrs, secs + more) == MediaBlock(attrs, secs)
    decreases |more|
  {
    if |more| == 0 {
      assert secs + more == secs;
    } else {
      var init := more[..|more| - 1];
      FailureSticks(attrs, secs, init);
      assert (secs + more)[..|secs + more| - 1] == secs + init;
    }
  }

  /** `make_text(pagename, attributes)`, where `keys` is the order in which the
      dictionary yields its keys: the flag loop over the items, the text
      sections, then the media block when the flag is set. The page does not
      depend on that order. */
  method MakeText(pagename: string, keys: seq<string>, attrs: map<string, AttrValue>) returns (r: Result<Page, WikiError>)
    requires forall k :: k in attrs <==> k in keys
    ensures r == Rendered(pagename, attrs)
  {
    var mediaInfo := MediaFlag(keys);
    assert mediaInfo <==> HasMedia(attrs) by {
      if HasMedia(attrs) {
        var k :| k in attrs && k in MediaKeys;
        var j :| 0 <= j < |keys| && keys[j] == k;
      }
    }
    var text := TextLoop(attrs, Header(pagename));
    if !mediaInfo {
      return Success(Page(text, []));
    }
    var media := MediaLoop(attrs);
    match media
    case Failure(e) =>
      return Failure(e);
    case Success(m) =>
      return Success(Page(text + "==Media==\n" + m.0, m.1));
  }

  // ----- properties of the page -----

  /** The page opens with the page name in bold on its own line. */
  lemma PageStartsWithName(pagename: string, attrs: map<string, AttrValue>)
    requires Rendered(pagename, attrs).Success?
    ensures "**" + pagename + "**\n" <= Rendered(pagename, attrs).value.text
  {
    var head := Header(pagename) + TextBlock(attrs, TextSections());
    assert Header(pagename) <= head;
  }

  /** The four text sections come in the fixed order Description, Part of
      speech, Synonyms, Similar words, each only when its key is present. */
  lemma TextSectionsInOrder(attrs: map<string, AttrValue>)
    ensures TextBlock(attrs, TextSections()) ==
      Entry(attrs, "Description") + Entry(attrs, "Part of speech") + Entry(attrs, "Synonyms") + Entry(attrs, "Similar words")
  {
    var s4 := ["Description", "Part of speech", "Synonyms", "Similar words"];
    var s3 := ["Description", "Part of speech", "Synonyms"];
    var s2 := ["Description", "Part of speech"];
    var s1 := ["Description"];
    assert TextSections() == s4;
    assert s4[..3] == s3 && s3[..2] == s2 && s2[..1] == s1 && s1[..0] == [];
    assert TextBlock(attrs, s1) == Entry(attrs, "Description");
    assert TextBlock(attrs, s2) == TextBlock(attrs, s1) + Entry(attrs, "Part of speech");
    assert TextBlock(attrs, s3) == TextBlock(attrs, s2) + Entry(attrs, "Synonyms");
    assert TextBlock(attrs, s4) == TextBlock(attrs, s3) + Entry(attrs, "Similar words");
  }

  /** The files listed for upload: the file name of every media section present,
      in section order. */
  function MediaFiles(attrs: map<string, AttrValue>, secs: seq<string>): seq<string>
  {
    if |secs| == 0 then []
    else
      var sec := secs[0];
      (if sec in attrs && attrs[sec].File? then [attrs[sec].filename] else []) + MediaFiles(attrs, secs[1..])
  }

  predicate AllFiles(attrs: map<string, AttrValue>, secs: seq<string>)
  {
    forall k :: 0 <= k < |secs| && secs[k] in attrs ==> attrs[secs[k]].File?
  }

  lemma {:induction false} MediaFilesAppend(attrs: map<string, AttrValue>, a: seq<string>, b: seq<string>)
    ensures MediaFiles(attrs, a + b) == MediaFiles(attrs, a) + MediaFiles(attrs, b)
    decreases |a|
  {
    if |a| > 0 {
      assert (a + b)[1..] == a[1..] + b;
      MediaFilesAppend(attrs, a[1..], b);
    } else {
      assert a + b == b;
    }
  }

  /** The media block fails exactly when a present section holds text, and
      otherwise uploads every present file once, in section order. */
  lemma {:induction false} MediaBlockUploads(attrs: map<string, AttrValue>, secs: seq<string>)
    ensures MediaBlock(attrs, secs).Success? <==> AllFiles(attrs, secs)
    ensures MediaBlock(attrs, secs).Success? ==> MediaBlock(attrs, secs).value.1 == MediaFiles(attrs, secs)
    decreases |secs|
  {
    if |secs| > 0 {
      var init := secs[..|secs| - 1];
      var sec := secs[|secs| - 1];
      MediaBlockUploads(attrs, init);
      assert secs == init + [sec];
      MediaFilesAppend(attrs, init, [sec]);
      assert MediaFiles(attrs, [sec]) == (if sec in attrs && attrs[sec].File? then [attrs[sec].filename] else []) by {
        assert [sec][1..] == [];
      }
      if AllFiles(attrs, secs) {
        assert AllFiles(attrs, init) by {
          forall k | 0 <= k < |init| && init[k] in attrs
            ensures attrs[init[k]].File?
          {
            assert secs[k] == init[k];
          }
        }
      } else if AllFiles(attrs, init) {
        assert sec in attrs && attrs[sec].Plain?;
      }
    }
  }

  /** `make_text` fails only inside the media block, exactly when the block is
      switched on and a photo, audio or video section holds text; when it
      succeeds the uploads are the file names of the media sections present
      with the block on, and none without it. */
  lemma PageUploads(pagename: string, attrs: map<string, AttrValue>)
    ensures Rendered(pagename, attrs).Failure? <==> HasMedia(attrs) && !AllFiles(attrs, MediaSections())
    ensures Rendered(pagename, attrs).Success? ==>
      Rendered(pagename, attrs).value.uploads == (if HasMedia(attrs) then MediaFiles(attrs, MediaSections()) else [])
  {
    MediaBlockUploads(attrs, MediaSections());
  }

  /** Without a lower-case `audio`, `photo` or `video` key there is no media
      block, whatever capitalised media sections are present, and nothing is
      uploaded. */
  lemma NoMediaKeyNoMediaBlock(pagename: string, attrs: map<string, AttrValue>)
    requires !HasMedia(attrs)
    ensures Rendered(pagename, attrs) ==
      Success(Page(Header(pagename) + (Entry(attrs, "Description") + Entry(attrs, "Part of speech")
                   + Entry(attrs, "Synonyms") + Entry(attrs, "Similar words")), []))
  {
    TextSectionsInOrder(attrs);
  }

  /** The `==Media==` heading follows the text sections exactly when some key is
      a lower-case `audio`, `photo` or `video`. */
  lemma MediaHeadingIffKey(pagename: string, attrs: map<string, AttrValue>)
    requires Rendered(pagename, attrs).Success?
    ensures HasMedia(attrs) <==>
      Header(pagename) + TextBlock(attrs, TextSections()) + "==Media==\n" <= Rendered(pagename, attrs).value.text
  {
    var head := Header(pagename) + TextBlock(attrs, TextSections());
    if HasMedia(attrs) {
      var media := MediaBlock(attrs, MediaSections()).value;
      Assoc(head, "==Media==\n", media.0);
    }
  }

  /** One media section: its heading and a link to its file, or nothing when absent. */
  function MediaEntry(attrs: map<string, AttrValue>, sec: string): string
    requires sec in attrs ==> attrs[sec].File?
  {
    if sec in attrs then ("===" + sec + "===\n") + ("[[File:" + attrs[sec].filename + "|" + attrs[sec].description + "]]\n") else ""
  }

  /** When every media section present holds a file, the block lists Photo, Audio
      and Video in that order, each only when its capitalised key is present. */
  lemma MediaSectionsInOrder(attrs: map<string, AttrValue>)
    requires forall sec :: sec in ["Photo", "Audio", "Video"] && sec in attrs ==> attrs[sec].File?
    ensures MediaBlock(attrs, MediaSections()) ==
      Success((MediaEntry(attrs, "Photo") + MediaEntry(attrs, "Audio") + MediaEntry(attrs, "Video"),
               MediaFiles(attrs, MediaSections())))
  {
    var s3 := ["Photo", "Audio", "Video"];
    var s2 := ["Photo", "Audio"];
    var s1 := ["Photo"];
    assert MediaSections() == s3;
    assert s3[..2] == s2 && s2[..1] == s1 && s1[..0] == [];
    MediaBlockStep(attrs, s1);
    MediaBlockStep(attrs, s2);
    MediaBlockStep(attrs, s3);
    assert MediaBlock(attrs, s1).value.0 == MediaEntry(attrs, "Photo");
    MediaBlockUploads(attrs, s3);
  }

  /** A media section holding a file, or absent, extends the block by its entry. */
  lemma MediaBlockStep(attrs: map<string, AttrValue>, secs: seq<string>)
    requires |secs| > 0
    requires var sec := secs[|secs| - 1]; sec in attrs ==> attrs[sec].File?
    requires MediaBlock(attrs, secs[..|secs| - 1]).Success?
    ensures MediaBlock(attrs, secs).Success?
    ensures MediaBlock(attrs, secs).value.0 ==
      MediaBlock(attrs, secs[..|secs| - 1]).value.0 + MediaEntry(attrs, secs[|secs| - 1])
  {
    var sec := secs[|secs| - 1];
    var done := MediaBlock(attrs, secs[..|secs| - 1]).value;
    if sec !in attrs {
      assert done.0 + MediaEntry(attrs, sec) == done.0;
    }
  }

  /** Two dictionaries that agree on every key that matters. */
  predicate Agree(a: map<string, AttrValue>, b: map<string, AttrValue>)
  {
    forall k :: k in Relevant() ==> (k in a <==> k in b) && (k in a ==> a[k] == b[k])
  }

  lemma {:induction false} TextBlockAgree(a: map<string, AttrValue>, b: map<string, AttrValue>, secs: seq<string>)
    requires Agree(a, b)
    requires forall k :: 0 <= k < |secs| ==> secs[k] in SectionOrder
    ensures TextBlock(a, secs) == TextBlock(b, secs)
    decreases |secs|
  {
    if |secs| > 0 {
      TextBlockAgree(a, b, secs[..|secs| - 1]);
    }
  }

  lemma {:induction false} MediaBlockAgree(a: map<string, AttrValue>, b: map<string, AttrValue>, secs: seq<string>)
    requires Agree(a, b)
    requires forall k :: 0 <= k < |secs| ==> secs[k] in SectionOrder
    ensures MediaBlock(a, secs) == MediaBlock(b, secs)
    decreases |secs|
  {
    if |secs| > 0 {
      MediaBlockAgree(a, b, secs[..|secs| - 1]);
    }
  }

  /** The page depends only on the seven section keys and the three lower-case
      media keys: in particular the `synonyms` and `similar_words` keys that set
      the unused flag change nothing. */
  lemma OnlyRelevantKeysMatter(pagename: string, a: map<string, AttrValue>, b: map<string, AttrValue>)
    requires Agree(a, b)
    ensures Rendered(pagename, a) == Rendered(pagename, b)
  {
    var ts := TextSections();
    var ms := MediaSections();
    assert forall k :: 0 <= k < |ts| ==> ts[k] == SectionOrder[k];
    assert forall k :: 0 <= k < |ms| ==> ms[k] == SectionOrder[k + 4];
    TextBlockAgree(a, b, ts);
    MediaBlockAgree(a, b, ms);
    assert HasMedia(a) <==> HasMedia(b) by {
      if HasMedia(a) {
        var k :| k in a && k in MediaKeys;
        assert k in Relevant();
      }
      if HasMedia(b) {
        var k :| k in b && k in MediaKeys;
        assert k in Relevant();
      }
    }
  }

  /** Removing the `synonyms` and `similar_words` keys leaves the page as it was. */
  lemma AdditionalKeysIgnored(pagename: string, attrs: map<string, AttrValue>)
    ensures Rendered(pagename, attrs - AdditionalKeys) == Rendered(pagename, attrs)
  {
    assert forall k :: k in Relevant() ==> k !in AdditionalKeys;
    OnlyRelevantKeysMatter(pagename, attrs, attrs - AdditionalKeys);
  }
}
