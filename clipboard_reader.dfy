/** The content classifier of utils/clipboardReader.py (clipboardReader.py at
    the root and get_clipboard in ClipboardGo-python.py are the same code):
    one clipboard snapshot becomes at most one files item, one image item and
    one text item, in that order, and one item is then chosen by priority. */
module ClipboardReader {
  import opened Wrappers
  import opened PyStr

  /** The device-independent bitmap bytes of CF_DIB. */
  type Dib = seq<bv8>

  /** What the clipboard offers: CF_UNICODETEXT, CF_HDROP, CF_DIB and the
      registered "HTML Format", each None when that format is not available. */
  datatype Snapshot = Snapshot(text: Option<string>, files: Option<seq<string>>, dib: Option<Dib>, html: Option<string>)

  datatype Kind = FilesKind | ImageKind | TextKind

  /** A clipboard item; `Img` is whatever the image decoder produces. */
  datatype Item<Img> = Files(paths: seq<string>) | Image(picture: Img) | Text(content: string)

  function KindOf<Img>(item: Item<Img>): Kind {
    match item
    case Files(_) => FilesKind
    case Image(_) => ImageKind
    case Text(_) => TextKind
  }

  /** Position in the priority order files, image, text. */
  function Rank(k: Kind): nat {
    match k
    case FilesKind => 0
    case ImageKind => 1
    case TextKind => 2
  }

  const StartMarker := "<!--StartFragment-->"
  const EndMarker := "<!--EndFragment-->"

  /** The part of an HTML clipboard string that is converted to text: between
      the first start marker and the first end marker when both occur (empty
      when the end marker comes first, as Python's slice then is), otherwise
      the whole string. */
  function Fragment(html: string): (r: string)
    ensures !Contains(html, StartMarker) || !Contains(html, EndMarker) ==> r == html
    ensures Contains(html, StartMarker) && Contains(html, EndMarker) ==>
              var from := Find(html, StartMarker) + |StartMarker|;
              var to := Find(html, EndMarker);
              (from <= to ==> r == html[from..to]) && (to < from ==> r == [])
  {
    var start := Find(html, StartMarker);
    var end := Find(html, EndMarker);
    if start != -1 && end != -1 then
      var from := start + |StartMarker|;
      if from <= end then html[from..end] else []
    else html
  }

  lemma {:induction false} FindNoOccurrenceBefore(s: string, pat: string, i: int)
    requires OccursAt(s, pat, i)
    requires forall j :: 0 <= j < i ==> !OccursAt(s, pat, j)
    ensures Find(s, pat) == i
  {
    assert Contains(s, pat);
  }

  /** The first character of `pat` occurs nowhere else in it, as `<` in
      each fragment marker. */
  predicate LeadIsUnique(pat: string) {
    |pat| > 0 && forall i :: 0 < i < |pat| ==> pat[i] != pat[0]
  }

  /** A pattern whose lead is unique is first found right after a prefix
      that does not contain it: no occurrence can straddle the boundary. */
  lemma FindAfterPrefix(x: string, pat: string, rest: string)
    requires LeadIsUnique(pat) && !Contains(x, pat)
    ensures Find(x + pat + rest, pat) == |x|
  {
    var s := x + pat + rest;
    assert s[|x|..|x| + |pat|] == pat;
    forall j | 0 <= j < |x| ensures !OccursAt(s, pat, j) {
      if j + |pat| <= |x| {
        assert s[j..j + |pat|] == x[j..j + |pat|];
        assert !OccursAt(x, pat, j);
      } else if j + |pat| <= |s| {
        assert s[j..j + |pat|][|x| - j] == s[|x|] == pat[0];
      }
    }
    FindNoOccurrenceBefore(s, pat, |x|);
  }

  /** The same past a `decoy` that starts with the pattern's lead, holds it
      nowhere else and differs from the pattern at position `k`. */
  lemma FindPastDecoy(x: string, decoy: string, y: string, pat: string, rest: string, k: nat)
    requires LeadIsUnique(pat) && !Contains(x, pat) && !Contains(y, pat)
    requires |decoy| > 0 && decoy[0] == pat[0] && LeadIsUnique(decoy)
    requires k < |pat| && k < |decoy| && decoy[k] != pat[k]
    ensures Find(x + decoy + y + pat + rest, pat) == |x| + |decoy| + |y|
  {
    var s := x + decoy + y + pat + rest;
    var o := |x| + |decoy|;
    var e := o + |y|;
    assert s[e..e + |pat|] == pat;
    forall j | 0 <= j < e ensures !OccursAt(s, pat, j) {
      if j + |pat| <= |s| {
        if j < |x| {
          if j + |pat| <= |x| {
            assert s[j..j + |pat|] == x[j..j + |pat|];
            assert !OccursAt(x, pat, j);
          } else {
            assert s[j..j + |pat|][|x| - j] == s[|x|] == decoy[0];
          }
        } else if j == |x| {
          assert s[j..j + |pat|][k] == s[j + k] == decoy[k];
        } else if j < o {
          assert s[j..j + |pat|][0] == s[j] == decoy[j - |x|];
        } else if j + |pat| <= e {
          assert s[j..j + |pat|] == y[j - o..j - o + |pat|];
          assert !OccursAt(y, pat, j - o);
        } else {
          assert s[j..j + |pat|][e - j] == s[e] == pat[0];
        }
      }
    }
    FindNoOccurrenceBefore(s, pat, e);
  }

  /** Where two markers with the same unique lead are found when neither
      occurs before the first and the second does not occur between them. */
  lemma FindsBetween(pre: string, sm: string, body: string, em: string, post: string)
    requires LeadIsUnique(sm) && LeadIsUnique(em) && sm[0] == em[0]
    requires |sm| > 4 && |em| > 4 && sm[4] != em[4]
    requires !Contains(pre, sm) && !Contains(pre, em) && !Contains(body, em)
    ensures var html := pre + sm + body + em + post;
            && Find(html, sm) == |pre|
            && Find(html, em) == |pre| + |sm| + |body|
            && html[|pre| + |sm|..|pre| + |sm| + |body|] == body
  {
    var html := pre + sm + body + em + post;
    assert html == pre + sm + (body + em + post);
    FindAfterPrefix(pre, sm, body + em + post);
    FindPastDecoy(pre, sm, body, em, post, 4);
  }

  lemma MarkersLeadWithLt()
    ensures LeadIsUnique(StartMarker) && LeadIsUnique(EndMarker)
    ensures StartMarker[0] == EndMarker[0] && StartMarker[4] != EndMarker[4]
    ensures |StartMarker| > 4 && |EndMarker| > 4
  {
    var sm, em := StartMarker, EndMarker;
    assert sm[0] == em[0] == '<';
    assert forall i :: 0 < i < |sm| ==> sm[i] != '<';
    assert forall i :: 0 < i < |em| ==> em[i] != '<';
  }

  /** When neither marker occurs before the first start marker and no end
      marker occurs after it before the first end marker, the fragment is
      exactly the text between them, whatever tags surround or fill it. */
  lemma FragmentBetweenMarkers(pre: string, body: string, post: string)
    requires !Contains(pre, StartMarker) && !Contains(pre, EndMarker)
    requires !Contains(body, EndMarker)
    ensures Fragment(pre + StartMarker + body + EndMarker + post) == body
  {
    var sm, em := StartMarker, EndMarker;
    MarkersLeadWithLt();
    FindsBetween(pre, sm, body, em, post);
    var html := pre + sm + body + em + post;
    assert OccursAt(html, sm, Find(html, sm));
    assert OccursAt(html, em, Find(html, em));
  }

  /** A typical payload: tags before the start marker, inside the fragment
      and after the end marker. */
  lemma FragmentOfTypicalPayload()
    ensures Fragment("<html><body>" + StartMarker + "<b>x</b>" + EndMarker + "</body></html>") == "<b>x</b>"
  {
    FragmentBetweenMarkers("<html><body>", "<b>x</b>", "</body></html>");
  }

  /** An end marker that comes before the first start marker gives an
      empty fragment. */
  lemma EndBeforeStartIsEmpty(pre: string, mid: string, rest: string)
    requires !Contains(pre, StartMarker) && !Contains(pre, EndMarker)
    requires !Contains(mid, StartMarker)
    ensures Fragment(pre + EndMarker + mid + StartMarker + rest) == []
  {
    var sm, em := StartMarker, EndMarker;
    MarkersLeadWithLt();
    var html := pre + em + mid + sm + rest;
    assert html == pre + em + (mid + sm + rest);
    FindAfterPrefix(pre, em, mid + sm + rest);
    FindPastDecoy(pre, em, mid, sm, rest, 4);
    assert OccursAt(html, sm, Find(html, sm));
    assert OccursAt(html, em, Find(html, em));
  }

  /** The text that becomes the text item: the HTML, if present and non-empty,
      cut to its fragment, converted to text by `render` (BeautifulSoup's
      get_text) and stripped; otherwise the stripped plain text; "" for none. */
  function FinalText(snap: Snapshot, render: string -> string): (r: string)
    ensures r == [] || (!IsSpace(r[0]) && !IsSpace(r[|r| - 1]))
  {
    if snap.html.Some? && snap.html.value != [] then Strip(render(Fragment(snap.html.value)))
    else if snap.text.Some? && snap.text.value != [] then Strip(snap.text.value)
    else []
  }

  /** HTML takes precedence: when a non-empty HTML format is present the plain
      text plays no part, even if the HTML renders to nothing. */
  lemma RichTextWins(snap: Snapshot, render: string -> string, other: Option<string>)
    requires snap.html.Some? && snap.html.value != []
    ensures FinalText(snap, render) == Strip(render(Fragment(snap.html.value)))
    ensures FinalText(snap.(text := other), render) == FinalText(snap, render)
  {
  }

  /** Without usable HTML the text comes from the plain text, stripped. */
  lemma PlainTextFallback(snap: Snapshot, render: string -> string)
    requires snap.html.None? || snap.html.value == []
    ensures snap.text.Some? ==> FinalText(snap, render) == Strip(snap.text.value)
    ensures snap.text.None? ==> FinalText(snap, render) == []
  {
    if snap.text.Some? && snap.text.value == [] {
      assert Strip(snap.text.value) == [];
    }
  }

  /** The items get_clipboard lists for a snapshot: the file list, the
      decoded image, the final text, each only when there is one; none at
      all exactly when the clipboard offers none of the three. */
  function Items<Img>(snap: Snapshot, render: string -> string, open: Dib -> Img): (items: seq<Item<Img>>)
    ensures |items| <= 3
    ensures items == [] <==> snap.files.None? && snap.dib.None? && FinalText(snap, render) == []
  {
    (if snap.files.Some? then [Files(snap.files.value)] else [])
    + (if snap.dib.Some? then [Image(open(snap.dib.value))] else [])
    + (if FinalText(snap, render) != [] then [Text(FinalText(snap, render))] else [])
  }

  /** The list is ordered files, image, text with at most one of each; it
      holds the file list exactly when the clipboard has one, the decoded
      image exactly when it has a bitmap, and the final text exactly when that
      is non-empty. */
  lemma ItemsLayout<Img>(snap: Snapshot, render: string -> string, open: Dib -> Img)
    ensures var items := Items(snap, render, open);
            forall i, j :: 0 <= i < j < |items| ==> Rank(KindOf(items[i])) < Rank(KindOf(items[j]))
    ensures snap.files.Some? ==> Files(snap.files.value) in Items(snap, render, open)
    ensures snap.dib.Some? ==> Image(open(snap.dib.value)) in Items(snap, render, open)
    ensures FinalText(snap, render) != [] <==> Text(FinalText(snap, render)) in Items(snap, render, open)
    ensures forall item <- Items(snap, render, open) :: item.Files? ==> snap.files == Some(item.paths)
    ensures forall item <- Items(snap, render, open) :: item.Image? ==> snap.dib.Some? && item.picture == open(snap.dib.value)
    ensures forall item <- Items(snap, render, open) :: item.Text? ==> item.content == FinalText(snap, render)
  {
  }

  /** get_clipboard on one snapshot; `render` stands for BeautifulSoup's
      get_text and `open` for PIL's Image.open. */
  method GetClipboard<Img>(snap: Snapshot, render: string -> string, open: Dib -> Img) returns (items: seq<Item<Img>>)
    ensures items == Items(snap, render, open)
  {
    items := [];
    var textItem: Option<string> := None;
    var htmlItem: Option<string> := None;
    if snap.text.Some? {
      textItem := snap.text;
    }
    if snap.files.Some? {
      items := items + [Files(snap.files.value)];
    }
    if snap.dib.Some? {
      items := items + [Image(open(snap.dib.value))];
    }
    if snap.html.Some? {
      htmlItem := snap.html;
    }
    var finalText := [];
    if htmlItem.Some? && htmlItem.value != [] {
      finalText := Strip(render(Fragment(htmlItem.value)));
    } else if textItem.Some? && textItem.value != [] {
      finalText := Strip(textItem.value);
    }
    assert finalText == FinalText(snap, render);
    if finalText != [] {
      items := items + [Text(finalText)];
    }
  }

  /** Index of the first item of kind `k`, if there is one. */
  function FirstOfKind<Img>(items: seq<Item<Img>>, k: Kind): (r: Option<nat>)
    ensures r.Some? ==> r.value < |items| && KindOf(items[r.value]) == k
    ensures r.Some? ==> forall j :: 0 <= j < r.value ==> KindOf(items[j]) != k
    ensures r.None? ==> forall j :: 0 <= j < |items| ==> KindOf(items[j]) != k
  {
    if items == [] then None
    else if KindOf(items[0]) == k then Some(0)
    else match FirstOfKind(items[1..], k)
      case None => None
      case Some(i) => Some(i + 1)
  }

  /** choose_clipboard_item: the first files item, else the first image
      item, else the first text item, else None. */
  function Choose<Img(==)>(items: seq<Item<Img>>): (r: Option<Item<Img>>)
    ensures r.None? <==> items == []
    ensures r.Some? ==> exists i :: 0 <= i < |items| && items[i] == r.value &&
                          forall j :: 0 <= j < i ==> KindOf(items[j]) != KindOf(r.value)
    ensures r.Some? ==> forall j :: 0 <= j < |items| ==> Rank(KindOf(r.value)) <= Rank(KindOf(items[j]))
  {
    match FirstOfKind(items, FilesKind)
    case Some(i) => Some(items[i])
    case None =>
      match FirstOfKind(items, ImageKind)
      case Some(i) => Some(items[i])
      case None =>
        match FirstOfKind(items, TextKind)
        case Some(i) => Some(items[i])
        case None => None
  }

  /** Reading a snapshot and choosing from it: files if the clipboard holds
      a file list, else the image, else the text item if there is one. */
  method ReadAndChoose<Img(==)>(snap: Snapshot, render: string -> string, open: Dib -> Img) returns (chosen: Option<Item<Img>>)
    ensures snap.files.Some? ==> chosen == Some(Files(snap.files.value))
    ensures snap.files.None? && snap.dib.Some? ==> chosen == Some(Image(open(snap.dib.value)))
    ensures snap.files.None? && snap.dib.None? ==>
              chosen == if FinalText(snap, render) != [] then Some(Text(FinalText(snap, render))) else None
  {
    var items := GetClipboard(snap, render, open);
    ItemsLayout(snap, render, open);
    chosen := Choose(items);
    if chosen.Some? {
      var i :| 0 <= i < |items| && items[i] == chosen.value;
      if snap.files.Some? {
        var f :| 0 <= f < |items| && items[f] == Files(snap.files.value);
        assert Rank(KindOf(chosen.value)) <= Rank(KindOf(items[f]));
      } else if snap.dib.Some? {
        var g :| 0 <= g < |items| && items[g] == Image(open(snap.dib.value));
        assert Rank(KindOf(chosen.value)) <= Rank(KindOf(items[g]));
      }
    }
  }
}
