/** The extraction rules of `load_paper_ids`, `load_paper` and `load_author`.
    HTML parsing and CSS selection are not modelled: a page arrives as the
    elements those functions select, in document order. */
module Pages {
  import opened Wrappers
  import opened Text
  import opened Fetch

  /** A `.maincard.poster` element of a schedule page, by its `id` attribute
      (None when the element has no `id`). */
  datatype Card = Card(id: Option<string>)

  /** A `<button>`: its text and its `onclick` attribute ("" when it has none,
      which is what `attrs.get("onclick", "")` yields). */
  datatype Button = Button(text: string, onclick: string)

  /** The parent of the first `.maincard` of a paper page: the texts of its
      `.maincardBody` elements and its buttons. */
  datatype PaperBox = PaperBox(bodies: seq<string>, buttons: seq<Button>)

  /** `box` is None when the page has no `.maincard`. */
  datatype PaperPage = PaperPage(box: Option<PaperBox>)

  /** The parent of the first `.maincard` of an author page: the text of its
      first `<h3>` and of its first `<h4>`, None where `find` finds nothing. */
  datatype AuthorBox = AuthorBox(h3: Option<string>, h4: Option<string>)

  datatype AuthorPage = AuthorPage(box: Option<AuthorBox>)

  /** An author button of a paper: its display name and its speaker id. */
  datatype AuthorRef = AuthorRef(name: string, id: string)

  datatype Paper = Paper(title: string, authors: seq<AuthorRef>)

  /** The card id's fixed prefix that `[9:]` drops. */
  const CardPrefixLength := 9

  /** `c.attrs["id"][9:]`: Python slicing drops up to nine characters and never fails. */
  function PaperId(cardId: string): (id: string)
    ensures |id| == if |cardId| >= CardPrefixLength then |cardId| - CardPrefixLength else 0
    ensures cardId[|cardId| - |id|..] == id
  {
    if |cardId| >= CardPrefixLength then cardId[CardPrefixLength..] else ""
  }

  /** Whatever nine characters precede an id, `PaperId` gives the id back; a
      card id shorter than nine characters gives the empty id. */
  lemma PaperIdOfCard(prefix: string, id: string)
    requires |prefix| == CardPrefixLength
    ensures PaperId(prefix + id) == id
    ensures forall s :: |s| < CardPrefixLength ==> PaperId(s) == ""
  {
    assert (prefix + id)[CardPrefixLength..] == id;
  }

  predicate HasId(c: Card) {
    c.id.Some?
  }

  /** `load_paper_ids`: one id per card, in card order; `attrs["id"]` on a
      card without an `id` raises KeyError, which fails the whole list. */
  function PaperIds(cards: seq<Card>): (r: Result<seq<string>, Error>)
    ensures r.Ok? <==> forall i :: 0 <= i < |cards| ==> HasId(cards[i])
    ensures r.Err? ==> r.error == KeyError
    ensures r.Ok? ==> |r.value| == |cards|
    ensures r.Ok? ==> forall i :: 0 <= i < |cards| ==> r.value[i] == PaperId(cards[i].id.value)
  {
    if forall i :: 0 <= i < |cards| ==> HasId(cards[i]) then
      Ok(seq(|cards|, i requires 0 <= i < |cards| => PaperId(cards[i].id.value)))
    else
      Err(KeyError)
  }

  /** `[\d-]`: the characters a speaker id is made of. */
  predicate IsIdChar(c: char) {
    '0' <= c <= '9' || c == '-'
  }

  predicate IsSpeakerId(s: string) {
    |s| > 0 && forall k :: 0 <= k < |s| ==> IsIdChar(s[k])
  }

  /** The longest run of id characters at the start of `s`. */
  function IdRun(s: string): (r: string)
    ensures |r| <= |s| && r == s[..|r|]
    ensures forall k :: 0 <= k < |r| ==> IsIdChar(r[k])
    ensures |r| == |s| || !IsIdChar(s[|r|])
    decreases |s|
  {
    if |s| > 0 && IsIdChar(s[0]) then [s[0]] + IdRun(s[1..]) else []
  }

  lemma {:induction false} IdRunOf(id: string, rest: string)
    requires forall k :: 0 <= k < |id| ==> IsIdChar(id[k])
    requires rest == [] || !IsIdChar(rest[0])
    ensures IdRun(id + rest) == id
    decreases |id|
  {
    if id != [] {
      assert (id + rest)[1..] == id[1..] + rest;
      IdRunOf(id[1..], rest);
    }
  }

  const SpeakerCall := "showSpeaker('"
  const SpeakerClose := "')"

  /** `SPEAKER_ID_REGEX.match(onclick).group(1)`, None where the match fails. The
      pattern is anchored at the start only. `[\d-]+` cannot match the quote that
      must follow it, so the group is the longest id run after the opening call,
      and backtracking never finds a shorter one. */
  function MatchSpeaker(onclick: string): (r: Option<string>)
    ensures r.Some? ==> IsSpeakerId(r.value)
  {
    var n := |SpeakerCall|;
    if |onclick| >= n && onclick[..n] == SpeakerCall then
      var after := onclick[n..];
      var id := IdRun(after);
      var m := |id|;
      if m > 0 && |after| >= m + 2 && after[m..m + 2] == SpeakerClose then Some(id)
      else None
    else None
  }

  /** A handler that matches starts with the opening call, the id and the close. */
  lemma MatchSpeakerShape(onclick: string)
    requires MatchSpeaker(onclick).Some?
    ensures exists rest :: onclick == SpeakerCall + MatchSpeaker(onclick).value + SpeakerClose + rest
  {
    var n := |SpeakerCall|;
    var after := onclick[n..];
    var id := IdRun(after);
    var m := |id|;
    assert onclick == SpeakerCall + id + SpeakerClose + after[m + 2..];
  }

  /** The match reads back the id of `showSpeaker('<id>')`, whatever follows. */
  lemma MatchSpeakerOf(id: string, rest: string)
    requires IsSpeakerId(id)
    ensures MatchSpeaker(SpeakerCall + id + SpeakerClose + rest) == Some(id)
  {
    var s := SpeakerCall + id + SpeakerClose + rest;
    var n := |SpeakerCall|;
    assert s[..n] == SpeakerCall;
    assert s[n..] == id + (SpeakerClose + rest);
    IdRunOf(id, SpeakerClose + rest);
    assert s[n..][|id|..|id| + 2] == SpeakerClose;
  }

  /** Every `showSpeaker('…')` handler mentions `showSpeaker`. */
  lemma MentionsSpeaker(id: string, rest: string)
    ensures Contains(SpeakerCall + id + SpeakerClose + rest, "showSpeaker")
  {
    var s := SpeakerCall + id + SpeakerClose + rest;
    assert s[..11] == SpeakerCall[..11] == "showSpeaker";
  }

  /** A handler that does not start with `showSpeaker('` never matches, even
      when it contains the call further on. */
  lemma MatchSpeakerAnchored(onclick: string)
    ensures !(|onclick| >= |SpeakerCall| && onclick[..|SpeakerCall|] == SpeakerCall) ==> MatchSpeaker(onclick) == None
  {
  }

  /** The buttons whose handler mentions `showSpeaker`, in order. */
  function Mentioning(buttons: seq<Button>): (r: seq<Button>)
    ensures |r| <= |buttons|
    ensures forall b :: b in r <==> b in buttons && Contains(b.onclick, "showSpeaker")
    ensures forall b :: multiset(r)[b] == if Contains(b.onclick, "showSpeaker") then multiset(buttons)[b] else 0
    decreases |buttons|
  {
    if buttons == [] then []
    else
      var rest := Mentioning(buttons[1..]);
      assert buttons == [buttons[0]] + buttons[1..];
      assert forall b :: b in buttons <==> b == buttons[0] || b in buttons[1..];
      if Contains(buttons[0].onclick, "showSpeaker") then [buttons[0]] + rest else rest
  }

  /** The filter keeps the buttons' order: filtering a concatenation is
      concatenating the filtered parts. */
  lemma {:induction false} MentioningAppend(a: seq<Button>, b: seq<Button>)
    ensures Mentioning(a + b) == Mentioning(a) + Mentioning(b)
    decreases |a|
  {
    if a == [] {
      assert a + b == b;
    } else {
      assert (a + b)[0] == a[0] && (a + b)[1..] == a[1..] + b;
      MentioningAppend(a[1..], b);
    }
  }

  /** One button is kept exactly when its handler mentions `showSpeaker`. */
  lemma MentioningOne(b: Button)
    ensures Mentioning([b]) == if Contains(b.onclick, "showSpeaker") then [b] else []
  {
    assert [b][1..] == [];
  }

  /** The author references of buttons that all mention `showSpeaker`, one per
      button, or AttributeError (`None.group`) when one of them does not match
      the pattern. */
  function SpeakerRefs(kept: seq<Button>): (r: Result<seq<AuthorRef>, Error>)
    ensures r.Err? ==> r.error == AttributeError
    ensures r.Ok? <==> forall b :: b in kept ==> MatchSpeaker(b.onclick).Some?
    ensures r.Ok? ==> |r.value| == |kept|
  {
    if forall i :: 0 <= i < |kept| ==> MatchSpeaker(kept[i].onclick).Some? then
      Ok(seq(|kept|, i requires 0 <= i < |kept| && MatchSpeaker(kept[i].onclick).Some? =>
        AuthorRef(Strip(kept[i].text, Whitespace), MatchSpeaker(kept[i].onclick).value)))
    else
      Err(AttributeError)
  }

  /** Each reference is the stripped text and the matched id of its button. */
  lemma SpeakerRefsAt(kept: seq<Button>, k: nat)
    requires SpeakerRefs(kept).Ok? && k < |kept|
    ensures SpeakerRefs(kept).value[k]
         == AuthorRef(Strip(kept[k].text, Whitespace), MatchSpeaker(kept[k].onclick).value)
  {
  }

  /** The comprehension over a paper box's buttons: a button whose `onclick`
      does not mention `showSpeaker` is skipped; one that mentions it but does not
      match the pattern raises AttributeError. */
  function SpeakerButtons(buttons: seq<Button>): (r: Result<seq<AuthorRef>, Error>)
    ensures r.Err? ==> r.error == AttributeError
    ensures r.Ok? <==> forall b :: b in buttons && Contains(b.onclick, "showSpeaker") ==> MatchSpeaker(b.onclick).Some?
    ensures r.Ok? ==> |r.value| == |Mentioning(buttons)|
  {
    SpeakerRefs(Mentioning(buttons))
  }

  /** On success, author `k` comes from the `k`-th button that mentions
      `showSpeaker`: its stripped text and its matched id. */
  lemma SpeakerButtonsAt(buttons: seq<Button>, k: nat)
    requires SpeakerButtons(buttons).Ok? && k < |Mentioning(buttons)|
    ensures SpeakerButtons(buttons).value[k]
         == AuthorRef(Strip(Mentioning(buttons)[k].text, Whitespace), MatchSpeaker(Mentioning(buttons)[k].onclick).value)
  {
    SpeakerRefsAt(Mentioning(buttons), k);
  }

  /** A single speaker button yields its stripped text and its id. */
  lemma SpeakerButtonOne(b: Button, id: string)
    requires Contains(b.onclick, "showSpeaker") && MatchSpeaker(b.onclick) == Some(id)
    ensures SpeakerButtons([b]) == Ok([AuthorRef(Strip(b.text, Whitespace), id)])
  {
    assert [b][1..] == [];
    assert Mentioning([b]) == [b] + Mentioning([]);
    assert SpeakerRefs([b]).Ok? by {
      assert forall c :: c in [b] ==> c == b;
    }
    SpeakerRefsAt([b], 0);
    var refs := SpeakerButtons([b]).value;
    assert refs == [refs[0]];
  }

  /** `load_paper` after the fetch. */
  function LoadPaper(page: PaperPage): (r: Result<Paper, Error>)
    ensures r.Err? ==> r.error == IndexError || r.error == AttributeError
    ensures r.Ok? ==> page.box.Some? && page.box.value.bodies != []
                      && |r.value.authors| == |Mentioning(page.box.value.buttons)|
  {
    match page.box
    case None => Err(IndexError)
    case Some(box) =>
      if box.bodies == [] then Err(IndexError)
      else
        var authors :- SpeakerButtons(box.buttons);
        Ok(Paper(Strip(box.bodies[0], Whitespace), authors))
  }

  /** `load_author` after the fetch: (name, affiliation). */
  function LoadAuthor(page: AuthorPage): (r: Result<(string, string), Error>)
    ensures r.Ok? <==> page.box.Some? && page.box.value.h3.Some? && page.box.value.h4.Some?
    ensures r.Err? ==> (r.error == IndexError <==> page.box.None?)
    ensures r.Err? ==> r.error == IndexError || r.error == AttributeError
  {
    match page.box
    case None => Err(IndexError)
    case Some(box) =>
      match (box.h3, box.h4)
      case (Some(name), Some(affiliation)) => Ok((Strip(name, Whitespace), Strip(affiliation, Whitespace)))
      case _ => Err(AttributeError)
  }

  /** The error cases of the two detail parsers, and what a success carries. */
  lemma LoadPaperCases(page: PaperPage)
    ensures page.box.None? ==> LoadPaper(page) == Err(IndexError)
    ensures page.box.Some? && page.box.value.bodies == [] ==> LoadPaper(page) == Err(IndexError)
    ensures page.box.Some? && page.box.value.bodies != [] ==>
      match SpeakerButtons(page.box.value.buttons)
      case Ok(authors) => LoadPaper(page) == Ok(Paper(Strip(page.box.value.bodies[0], Whitespace), authors))
      case Err(e) => LoadPaper(page) == Err(AttributeError)
    ensures LoadPaper(page).Ok? ==> LoadPaper(page).value.title == Strip(LoadPaper(page).value.title, Whitespace)
  {
    if page.box.Some? && page.box.value.bodies != [] {
      StripIdempotent(page.box.value.bodies[0], Whitespace);
    }
  }

  lemma LoadAuthorCases(page: AuthorPage)
    ensures LoadAuthor(page).Ok? <==> page.box.Some? && page.box.value.h3.Some? && page.box.value.h4.Some?
    ensures page.box.None? ==> LoadAuthor(page) == Err(IndexError)
    ensures page.box.Some? && (page.box.value.h3.None? || page.box.value.h4.None?) ==> LoadAuthor(page) == Err(AttributeError)
    ensures LoadAuthor(page).Ok? ==> LoadAuthor(page).value.0 == Strip(page.box.value.h3.value, Whitespace)
    ensures LoadAuthor(page).Ok? ==> LoadAuthor(page).value.1 == Strip(page.box.value.h4.value, Whitespace)
  {
  }
}
