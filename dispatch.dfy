/**
 * The decisions the message handler makes before and after a download:
 * the link check on the stripped text, the platform chosen by substring
 * tests in a fixed order, the upload method chosen by file size, and the
 * resulting sequence of outbound actions. The download adapters and the
 * file system are parameters: an adapter's result and the outcome of each
 * delivery step (reading the size, the upload, removing the file) are given,
 * not computed. Text answers are assumed to be delivered.
 */
module Dispatch {
  import opened Wrappers
  import TextFormat

  // ---------------------------------------------------------------------
  // whitespace and strip()
  // ---------------------------------------------------------------------

  /** Python's whitespace (`str.isspace`, and `\s` in a `str` pattern). */
  predicate IsSpace(c: char)
  {
    || ('\t' <= c <= '\r')
    || ('\U{1C}' <= c <= '\U{1F}')
    || c == ' '
    || c == '\U{85}'
    || c == '\U{A0}'
    || c == '\U{1680}'
    || ('\U{2000}' <= c <= '\U{200A}')
    || c == '\U{2028}'
    || c == '\U{2029}'
    || c == '\U{202F}'
    || c == '\U{205F}'
    || c == '\U{3000}'
  }

  /** Where the text starts once leading whitespace is skipped. */
  function LeadingSpace(s: string): (n: nat)
    decreases |s|
    ensures n <= |s|
    ensures forall i :: 0 <= i < n ==> IsSpace(s[i])
    ensures n < |s| ==> !IsSpace(s[n])
  {
    if s != [] && IsSpace(s[0]) then 1 + LeadingSpace(s[1..]) else 0
  }

  /** Where trailing whitespace begins. */
  function TrailingSpace(s: string): (m: nat)
    decreases |s|
    ensures m <= |s|
    ensures forall i :: m <= i < |s| ==> IsSpace(s[i])
    ensures 0 < m ==> !IsSpace(s[m - 1])
  {
    if s != [] && IsSpace(s[|s| - 1]) then TrailingSpace(s[..|s| - 1]) else |s|
  }

  /**
   * Python's `str.strip()` with no argument: the slice between the leading
   * and the trailing whitespace, which starts and ends with a non-space.
   */
  function Strip(s: string): (r: string)
    ensures r == [] || (!IsSpace(r[0]) && !IsSpace(r[|r| - 1]))
    ensures r == [] <==> forall i :: 0 <= i < |s| ==> IsSpace(s[i])
    ensures r != [] ==> r == s[LeadingSpace(s)..TrailingSpace(s)]
  {
    var n := LeadingSpace(s);
    if n == |s| then [] else s[n..TrailingSpace(s)]
  }

  // ---------------------------------------------------------------------
  // the link check: re.match(r'https?://[^\s]+', url)
  // ---------------------------------------------------------------------

  const Http: string := "http://"
  const Https: string := "https://"

  predicate NoSpace(t: string)
  {
    forall i :: 0 <= i < |t| ==> !IsSpace(t[i])
  }

  /** The check as the matcher runs it: a scheme, then at least one non-space character. */
  predicate StartsWithLink(url: string)
  {
    || (|url| > |Http| && url[..|Http|] == Http && !IsSpace(url[|Http|]))
    || (|url| > |Https| && url[..|Https|] == Https && !IsSpace(url[|Https|]))
  }

  /** Reference: p as a whole is one match of `https?://[^\s]+`. */
  predicate WholeLink(p: string)
  {
    || (|p| > |Http| && p[..|Http|] == Http && NoSpace(p[|Http|..]))
    || (|p| > |Https| && p[..|Https|] == Https && NoSpace(p[|Https|..]))
  }

  /**
   * `re.match` is anchored at the start only: the check passes exactly when
   * some prefix of the text is a whole match of the pattern.
   */
  lemma StartsWithLinkIffPrefixMatches(url: string)
    ensures StartsWithLink(url) <==> exists k :: 0 <= k <= |url| && WholeLink(url[..k])
  {
    if StartsWithLink(url) {
      var k := if |url| > |Http| && url[..|Http|] == Http && !IsSpace(url[|Http|]) then |Http| + 1 else |Https| + 1;
      var p := url[..k];
      assert p[..k - 1] == url[..k - 1];
      assert p[k - 1..] == [url[k - 1]];
      assert WholeLink(p);
    }
    if exists k :: 0 <= k <= |url| && WholeLink(url[..k]) {
      var k :| 0 <= k <= |url| && WholeLink(url[..k]);
      var p := url[..k];
      if |p| > |Http| && p[..|Http|] == Http && NoSpace(p[|Http|..]) {
        assert url[..|Http|] == p[..|Http|];
        assert p[|Http|..][0] == url[|Http|];
      } else {
        assert url[..|Https|] == p[..|Https|];
        assert p[|Https|..][0] == url[|Https|];
      }
    }
  }

  /** Anything may follow the first non-space character after the scheme. */
  lemma TrailingTextAllowed(url: string, rest: string)
    requires StartsWithLink(url)
    ensures StartsWithLink(url + rest)
  {
    var t := url + rest;
    assert t[..|Http|] == url[..|Http|] && t[|Http|] == url[|Http|];
    assert |url| > |Https| ==> t[..|Https|] == url[..|Https|] && t[|Https|] == url[|Https|];
  }

  /** The gate on the raw message text: strip, then check. */
  predicate PassesGate(text: string)
    ensures (forall i :: 0 <= i < |text| ==> IsSpace(text[i])) ==> !PassesGate(text)
  {
    StartsWithLink(Strip(text))
  }

  // ---------------------------------------------------------------------
  // platform classification
  // ---------------------------------------------------------------------

  /** Python's `sub in s` on strings. */
  predicate Contains(s: string, sub: string)
    decreases |s|
  {
    |sub| <= |s| && (s[..|sub|] == sub || Contains(s[1..], sub))
  }

  /** sub occurs in s starting at index i. */
  predicate OccursAt(s: string, sub: string, i: int)
  {
    0 <= i && i + |sub| <= |s| && s[i..i + |sub|] == sub
  }

  /** `sub in s` holds exactly when sub occurs at some index of s. */
  lemma {:induction false} ContainsIff(s: string, sub: string)
    ensures Contains(s, sub) <==> exists i :: OccursAt(s, sub, i)
    decreases |s|
  {
    if |sub| <= |s| {
      if s[..|sub|] != sub {
        ContainsIff(s[1..], sub);
        if exists i :: OccursAt(s, sub, i) {
          var i :| OccursAt(s, sub, i);
          assert i != 0;
          assert s[1..][i - 1..i - 1 + |sub|] == s[i..i + |sub|];
          assert OccursAt(s[1..], sub, i - 1);
        }
        if Contains(s[1..], sub) {
          var i :| OccursAt(s[1..], sub, i);
          assert s[i + 1..i + 1 + |sub|] == s[1..][i..i + |sub|];
          assert OccursAt(s, sub, i + 1);
        }
      } else {
        assert OccursAt(s, sub, 0);
      }
    } else {
      forall i | 0 <= i ensures !OccursAt(s, sub, i) { }
    }
  }

  /** An occurrence at a known index makes `sub in s` true. */
  lemma ContainsAt(s: string, sub: string, i: nat)
    requires OccursAt(s, sub, i)
    ensures Contains(s, sub)
  {
    ContainsIff(s, sub);
  }

  /** A text one of whose characters does not occur in s is not in s. */
  lemma {:induction false} NotContainedWithoutChar(s: string, sub: string, k: nat)
    requires k < |sub| && sub[k] !in s
    ensures !Contains(s, sub)
    decreases |s|
  {
    if |sub| <= |s| {
      assert s[..|sub|][k] == s[k];
      NotContainedWithoutChar(s[1..], sub, k);
    }
  }

  datatype Platform = YouTube | Instagram | TikTok | Twitter | Unsupported

  /** The handler's if/elif chain over the stripped link. */
  function Classify(url: string): Platform
  {
    if Contains(url, "youtube.com") || Contains(url, "youtu.be") then YouTube
    else if Contains(url, "instagram.com") then Instagram
    else if Contains(url, "tiktok.com") then TikTok
    else if Contains(url, "twitter.com") then Twitter
    else Unsupported
  }

  /** The platform table in its order: the keys of a row, and the platform it selects. */
  const Table: seq<(seq<string>, Platform)> := [
    (["youtube.com", "youtu.be"], YouTube),
    (["instagram.com"], Instagram),
    (["tiktok.com"], TikTok),
    (["twitter.com"], Twitter)
  ]

  predicate AnyContained(url: string, keys: seq<string>)
  {
    exists j :: 0 <= j < |keys| && Contains(url, keys[j])
  }

  /** Reference: the platform of the first row one of whose keys occurs in the link. */
  function FirstMatch(table: seq<(seq<string>, Platform)>, url: string): Platform
  {
    if table == [] then Unsupported
    else if AnyContained(url, table[0].0) then table[0].1
    else FirstMatch(table[1..], url)
  }

  lemma AnyContainedOne(url: string, key: string)
    ensures AnyContained(url, [key]) <==> Contains(url, key)
  {
    if Contains(url, key) { assert Contains(url, [key][0]); }
  }

  lemma AnyContainedTwo(url: string, k0: string, k1: string)
    ensures AnyContained(url, [k0, k1]) <==> Contains(url, k0) || Contains(url, k1)
  {
    var keys := [k0, k1];
    if Contains(url, k0) { assert Contains(url, keys[0]); }
    if Contains(url, k1) { assert Contains(url, keys[1]); }
  }

  /** The chain and the table agree: the first matching row wins. */
  lemma ClassifyIsFirstMatch(url: string)
    ensures Classify(url) == FirstMatch(Table, url)
  {
    var r1 := (["youtube.com", "youtu.be"], YouTube);
    var r2 := (["instagram.com"], Instagram);
    var r3 := (["tiktok.com"], TikTok);
    var r4 := (["twitter.com"], Twitter);
    var t4 := [r4];
    var t3 := [r3] + t4;
    var t2 := [r2] + t3;
    var t1 := [r1] + t2;
    assert Table == t1;
    assert t1[1..] == t2 && t2[1..] == t3 && t3[1..] == t4 && t4[1..] == [];
    AnyContainedTwo(url, "youtube.com", "youtu.be");
    AnyContainedOne(url, "instagram.com");
    AnyContainedOne(url, "tiktok.com");
    AnyContainedOne(url, "twitter.com");
    assert FirstMatch(t4, url) == if Contains(url, "twitter.com") then Twitter else Unsupported;
    assert FirstMatch(t3, url) == if Contains(url, "tiktok.com") then TikTok else FirstMatch(t4, url);
    assert FirstMatch(t2, url) == if Contains(url, "instagram.com") then Instagram else FirstMatch(t3, url);
    assert FirstMatch(t1, url) == if Contains(url, "youtube.com") || Contains(url, "youtu.be") then YouTube else FirstMatch(t2, url);
  }

  /** A link naming YouTube is YouTube whatever else it names, TikTok included. */
  lemma YouTubeWins(a: string, b: string)
    ensures Classify(a + "youtube.com" + b) == YouTube
  {
    var url := a + "youtube.com" + b;
    assert url[|a|..|a| + 11] == "youtube.com";
    ContainsAt(url, "youtube.com", |a|);
  }

  /** A link whose only platform key is `tiktok.com` is TikTok. */
  lemma TikTokWhenOnlyKey(url: string)
    requires Contains(url, "tiktok.com")
    requires !Contains(url, "youtube.com") && !Contains(url, "youtu.be") && !Contains(url, "instagram.com")
    ensures Classify(url) == TikTok
  {
  }

  /**
   * A corollary for links built around `tiktok.com`: with no `y` and no `g`
   * around the key (as in `https://tiktok.com/@u/video/1`) no earlier key can
   * occur, so the link is TikTok.
   */
  lemma TikTokLinkIsTikTok(a: string, b: string)
    requires 'y' !in a + b && 'g' !in a + b
    ensures Classify(a + "tiktok.com" + b) == TikTok
  {
    var key := "tiktok.com";
    var url := a + key + b;
    assert Contains(url, key) by {
      assert url[|a|..|a| + |key|] == key;
      ContainsAt(url, key, |a|);
    }
    assert 'y' !in url && 'g' !in url by {
      JoinLacks(a, key, b, 'y');
      JoinLacks(a, key, b, 'g');
    }
    NoEarlierPlatform(url);
    TikTokWhenOnlyKey(url);
  }

  lemma JoinLacks(a: string, key: string, b: string, c: char)
    requires c !in a + b && c !in key
    ensures c !in a + key + b
  {
    assert c !in a && c !in b by {
      assert forall x :: x in a || x in b ==> x in a + b;
    }
  }

  /** Without a `y` or a `g` no YouTube or Instagram key can occur. */
  lemma NoEarlierPlatform(url: string)
    requires 'y' !in url && 'g' !in url
    ensures !Contains(url, "youtube.com") && !Contains(url, "youtu.be") && !Contains(url, "instagram.com")
  {
    var yt, yb, ig := "youtube.com", "youtu.be", "instagram.com";
    assert yt[0] == 'y' && yb[0] == 'y' && ig[5] == 'g';
    NotContainedWithoutChar(url, yt, 0);
    NotContainedWithoutChar(url, yb, 0);
    NotContainedWithoutChar(url, ig, 5);
  }

  // ---------------------------------------------------------------------
  // upload method
  // ---------------------------------------------------------------------

  /** 50 MiB: the largest file still sent as a video. */
  const VideoLimit: int := 50 * 1024 * 1024

  datatype UploadMethod = AsDocument | AsVideo

  function ChooseUpload(size: int): UploadMethod
  {
    if size > VideoLimit then AsDocument else AsVideo
  }

  /** Exactly 52428800 bytes is a video; one byte more is a document. */
  lemma UploadBoundary(size: int)
    ensures ChooseUpload(size) == AsDocument <==> size >= 52428801
    ensures ChooseUpload(52428800) == AsVideo && ChooseUpload(52428801) == AsDocument
  {
  }

  // ---------------------------------------------------------------------
  // the handler's outbound actions
  // ---------------------------------------------------------------------

  /** Seconds after which the request and the sent video are deleted. */
  const DeleteDelay: nat := 1800

  datatype Notice = Processing | InvalidLink | DownloadError | DownloadFailed | SendFailed

  /** The text before the bold part of a notice: its emoji. */
  function NoticeLead(n: Notice): string
  {
    if n == Processing then "⏳ " else "❌ "
  }

  function Concat(ws: seq<string>): string
  {
    if ws == [] then [] else ws[0] + Concat(ws[1..])
  }

  /** The words written between the `**` markers of a notice. */
  function BoldWords(n: Notice): seq<string>
  {
    match n
    case Processing => ["Processing", " your", " request...", " This", " may", " take", " a", " minute."]
    case InvalidLink => ["Invalid", " URL!"]
    case DownloadError => ["Download", " failed.", " Please", " try", " again!"]
    case DownloadFailed => ["Failed", " to", " download", " the", " video.", " Please", " try", " again."]
    case SendFailed => ["Failed", " to", " send", " the", " file.", " Please", " try", " again."]
  }

  /** The words after the closing marker of a notice. */
  function TailWords(n: Notice): seq<string>
  {
    if n == InvalidLink then [" Please", " send", " a", " valid", " video", " link."] else []
  }

  /** The notice as the handler writes it, e.g. `❌ **Invalid URL!** Please send a valid video link.` */
  function NoticeText(n: Notice): string
  {
    NoticeLead(n) + "**" + Concat(BoldWords(n)) + "**" + Concat(TailWords(n))
  }

  /** Every text answer goes through format_text before it is sent. */
  function Rendered(n: Notice): string
  {
    TextFormat.FormatText(NoticeText(n))
  }

  /** Text with no `*` and no newline. */
  predicate Plain(s: string)
  {
    '*' !in s && '\n' !in s
  }

  lemma {:induction false} ConcatPlain(ws: seq<string>)
    requires forall i :: 0 <= i < |ws| ==> Plain(ws[i])
    ensures Plain(Concat(ws))
  {
    if ws != [] {
      ConcatPlain(ws[1..]);
    }
  }

  /** No part of a notice contains a marker character or a newline. */
  lemma NoticeWordsPlain(n: Notice)
    ensures Plain(NoticeLead(n))
    ensures forall i :: 0 <= i < |BoldWords(n)| ==> Plain(BoldWords(n)[i])
    ensures forall i :: 0 <= i < |TailWords(n)| ==> Plain(TailWords(n)[i])
  {
    BoldWordsPlain(n);
    assert Plain(NoticeLead(n)) by {
      if n == Processing { assert Plain("⏳ "); } else { assert Plain("❌ "); }
    }
    assert forall i :: 0 <= i < |TailWords(n)| ==> Plain(TailWords(n)[i]) by {
      var ws := [" Please", " send", " a", " valid", " video", " link."];
      assert forall i :: 0 <= i < |ws| ==> Plain(ws[i]);
    }
  }

  lemma BoldWordsPlain(n: Notice)
    ensures forall i :: 0 <= i < |BoldWords(n)| ==> Plain(BoldWords(n)[i])
  {
    match n
    case Processing => WordsPlainProcessing();
    case InvalidLink => WordsPlainInvalidLink();
    case DownloadError => WordsPlainDownloadError();
    case DownloadFailed => WordsPlainDownloadFailed();
    case SendFailed => WordsPlainSendFailed();
  }

  lemma WordsPlainProcessing()
    ensures forall i :: 0 <= i < |BoldWords(Processing)| ==> Plain(BoldWords(Processing)[i])
  {
  }

  lemma WordsPlainInvalidLink()
    ensures forall i :: 0 <= i < |BoldWords(InvalidLink)| ==> Plain(BoldWords(InvalidLink)[i])
  {
  }

  lemma WordsPlainDownloadError()
    ensures forall i :: 0 <= i < |BoldWords(DownloadError)| ==> Plain(BoldWords(DownloadError)[i])
  {
  }

  lemma WordsPlainDownloadFailed()
    ensures forall i :: 0 <= i < |BoldWords(DownloadFailed)| ==> Plain(BoldWords(DownloadFailed)[i])
  {
  }

  lemma WordsPlainSendFailed()
    ensures forall i :: 0 <= i < |BoldWords(SendFailed)| ==> Plain(BoldWords(SendFailed)[i])
  {
  }

  /**
   * Each notice reaches the chat with its emoji plain and its message in
   * bold, e.g. `❌ <b>Invalid URL!</b> Please send a valid video link.`
   */
  lemma RenderedNotice(n: Notice)
    ensures Rendered(n) == NoticeLead(n) + "<b>" + Concat(BoldWords(n)) + "</b>" + Concat(TailWords(n))
  {
    NoticeWordsPlain(n);
    ConcatPlain(BoldWords(n));
    ConcatPlain(TailWords(n));
    TextFormat.FormatLeadIn(NoticeLead(n), Concat(BoldWords(n)), Concat(TailWords(n)));
  }

  /** The request message, or the message carrying the video. */
  datatype MessageRef = Request | Sent

  datatype Action =
    | Answer(notice: Notice)
    | Fetch(platform: Platform, url: string)
    | Upload(how: UploadMethod, file: string)
    | RemoveFile(file: string)
    | ScheduleDeletion(message: MessageRef, delay: nat)

  /** What the chosen adapter produced: it raised, it returned nothing, or a file name. */
  datatype FetchOutcome = Raised | NoFile | Saved(filename: string)

  /**
   * The outcome of each delivery step: the size read from disk (None if
   * reading it raised), whether the upload and the removal of the local
   * file succeeded.
   */
  datatype DeliveryEnv = DeliveryEnv(size: Option<nat>, uploads: bool, removes: bool)

  /** send_large_video: any step that raises ends in the failure notice. */
  function Deliver(file: string, env: DeliveryEnv): (r: seq<Action>)
    ensures r != []
    ensures r[|r| - 1] == Answer(SendFailed) || r[|r| - 1] == ScheduleDeletion(Sent, DeleteDelay)
    ensures ScheduleDeletion(Sent, DeleteDelay) in r <==> env.size.Some? && env.uploads && env.removes
    ensures forall i :: 0 <= i < |r| && r[i].Upload? ==>
              i == 0 && env.size.Some? && r[i] == Upload(ChooseUpload(env.size.value), file)
  {
    match env.size
    case None => [Answer(SendFailed)]
    case Some(n) =>
      var how := ChooseUpload(n);
      if !env.uploads then [Answer(SendFailed)]
      else if !env.removes then [Upload(how, file), Answer(SendFailed)]
      else [Upload(how, file), RemoveFile(file), ScheduleDeletion(Sent, DeleteDelay)]
  }

  /** download_video: the actions for one incoming text message. */
  function HandleText(text: string, fetch: Platform -> FetchOutcome, env: DeliveryEnv): (r: seq<Action>)
    ensures r == [] || r[0] == Answer(Processing)
  {
    var url := Strip(text);
    if !StartsWithLink(url) then []
    else
      var p := Classify(url);
      if p == Unsupported then [Answer(Processing), Answer(InvalidLink)]
      else
        match fetch(p)
        case Raised => [Answer(Processing), Fetch(p, url), Answer(DownloadError)]
        case NoFile => [Answer(Processing), Fetch(p, url), Answer(DownloadFailed)]
        case Saved(f) =>
          if f == "" then [Answer(Processing), Fetch(p, url), Answer(DownloadFailed)]
          else [Answer(Processing), Fetch(p, url)] + Deliver(f, env) + [ScheduleDeletion(Request, DeleteDelay)]
  }

  /** A message that fails the link check gets no reply and triggers nothing. */
  lemma SilentUnlessLink(text: string, fetch: Platform -> FetchOutcome, env: DeliveryEnv)
    ensures HandleText(text, fetch, env) == [] <==> !PassesGate(text)
  {
  }

  /**
   * A message that passes is acknowledged first; then, for a known platform,
   * exactly that platform's adapter is called with the stripped link, and for
   * an unknown one the only other reply is the invalid-link notice.
   */
  lemma LinkAcknowledgedThenDispatched(text: string, fetch: Platform -> FetchOutcome, env: DeliveryEnv)
    requires PassesGate(text)
    ensures var r := HandleText(text, fetch, env);
            var url := Strip(text);
      && |r| >= 2 && r[0] == Answer(Processing)
      && (Classify(url) == Unsupported ==> r == [Answer(Processing), Answer(InvalidLink)])
      && (Classify(url) != Unsupported ==> r[1] == Fetch(Classify(url), url))
      && (forall i :: 0 <= i < |r| && r[i].Fetch? ==> i == 1 && r[i] == Fetch(Classify(url), url))
  {
    var r := HandleText(text, fetch, env);
    var url := Strip(text);
    var p := Classify(url);
    if p != Unsupported && fetch(p).Saved? && fetch(p).filename != "" {
      var f := fetch(p).filename;
      var d := Deliver(f, env);
      assert r == [Answer(Processing), Fetch(p, url)] + d + [ScheduleDeletion(Request, DeleteDelay)];
      forall i | 2 <= i < |r| ensures !r[i].Fetch? {
        if i < 2 + |d| { assert r[i] == d[i - 2]; }
      }
    }
  }

  /**
   * Once a file was obtained, the request is always scheduled for deletion;
   * the sent video is scheduled too exactly when upload and removal succeeded.
   */
  lemma DeletionScheduled(text: string, fetch: Platform -> FetchOutcome, env: DeliveryEnv, f: string)
    requires PassesGate(text) && Classify(Strip(text)) != Unsupported
    requires fetch(Classify(Strip(text))) == Saved(f) && f != ""
    ensures var r := HandleText(text, fetch, env);
      && r[|r| - 1] == ScheduleDeletion(Request, DeleteDelay)
      && (ScheduleDeletion(Sent, DeleteDelay) in r <==> env.size.Some? && env.uploads && env.removes)
  {
    var r := HandleText(text, fetch, env);
    var url := Strip(text);
    var d := Deliver(f, env);
    assert r == [Answer(Processing), Fetch(Classify(url), url)] + d + [ScheduleDeletion(Request, DeleteDelay)];
    assert ScheduleDeletion(Sent, DeleteDelay) in r <==> ScheduleDeletion(Sent, DeleteDelay) in d;
  }

  /**
   * The whole successful run: acknowledgement, adapter call, upload by size,
   * removal of the local file, and both deletions after 1800 seconds.
   */
  lemma SuccessfulDelivery(text: string, fetch: Platform -> FetchOutcome, f: string, n: nat)
    requires PassesGate(text) && Classify(Strip(text)) != Unsupported
    requires fetch(Classify(Strip(text))) == Saved(f) && f != ""
    ensures HandleText(text, fetch, DeliveryEnv(Some(n), true, true)) ==
      [ Answer(Processing), Fetch(Classify(Strip(text)), Strip(text)),
        Upload(if n > 52428800 then AsDocument else AsVideo, f), RemoveFile(f),
        ScheduleDeletion(Sent, 1800), ScheduleDeletion(Request, 1800) ]
  {
  }
}
