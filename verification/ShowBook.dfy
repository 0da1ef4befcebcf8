/** The open/closed book kept over the cues of a show (wing_parser/showcontext/view.py). */
module ShowBook {
  import opened Results
  import opened Sequences

  datatype Cue = Cue(action: string, channels: seq<int>, time: Option<string>)

  datatype Segment = Segment(id: string, expects: seq<string>, cues: seq<Cue>)

  /** What a cue's view is given beside the cue. */
  datatype CueNotes = CueNotes(contradictions: seq<int>, gap: Option<int>)

  /** Only these two actions move the book. */
  function StateOf(action: string): Option<bool> {
    if action == "open" then Some(true) else if action == "close" then Some(false) else None
  }

  /** A cue's readable time in seconds; `parse` reads a written time. */
  function SecondsOf(cue: Cue, parse: string -> Option<int>): Option<int> {
    if cue.time.Some? && cue.time.value != "" then parse(cue.time.value) else None
  }

  // ----- what was said of the channels, in order

  datatype Mention = Mention(channel: int, open: bool)

  function MentionsOf(channels: seq<int>, open: bool): seq<Mention> {
    if channels == [] then []
    else MentionsOf(channels[..|channels| - 1], open) + [Mention(channels[|channels| - 1], open)]
  }

  function CueMentions(cue: Cue): seq<Mention> {
    var wanted := StateOf(cue.action);
    if wanted.None? then [] else MentionsOf(cue.channels, wanted.value)
  }

  function Mentions(cues: seq<Cue>): seq<Mention> {
    if cues == [] then [] else Mentions(cues[..|cues| - 1]) + CueMentions(cues[|cues| - 1])
  }

  lemma MentionsSnoc(cues: seq<Cue>, cue: Cue)
    ensures Mentions(cues + [cue]) == Mentions(cues) + CueMentions(cue)
  {
    assert (cues + [cue])[..|cues|] == cues;
  }

  lemma MentionsOfNext(said: seq<Mention>, channels: seq<int>, open: bool, k: nat)
    requires k < |channels|
    ensures said + MentionsOf(channels[..k + 1], open) ==
            said + MentionsOf(channels[..k], open) + [Mention(channels[k], open)]
  {
    assert channels[..k + 1][..k] == channels[..k];
    Regroup(said, MentionsOf(channels[..k], open), [Mention(channels[k], open)]);
  }

  /** What the latest mention of a channel said. */
  function Latest(mentions: seq<Mention>, channel: int): Option<bool> {
    if mentions == [] then None
    else if mentions[|mentions| - 1].channel == channel then Some(mentions[|mentions| - 1].open)
    else Latest(mentions[..|mentions| - 1], channel)
  }

  // ----- what the views must say

  /** What has been said when the k-th channel of a cue is reached: by the cues before, and by the cue itself. */
  function Said(earlier: seq<Cue>, cue: Cue, k: nat, open: bool): seq<Mention>
    requires k <= |cue.channels|
  {
    Mentions(earlier) + MentionsOf(cue.channels[..k], open)
  }

  /** The k-th channel of a cue that follows the given ones contradicts when its latest earlier mention, in the
      cues before or earlier in the same list, said the same. */
  predicate Contradicts(earlier: seq<Cue>, cue: Cue, k: nat)
    requires k < |cue.channels|
  {
    var wanted := StateOf(cue.action);
    wanted.Some? && Latest(Said(earlier, cue, k, wanted.value), cue.channels[k]) == wanted
  }

  /** The contradicting channels among the first `n`, in their order. */
  function Contradictions(earlier: seq<Cue>, cue: Cue, n: nat): seq<int>
    requires n <= |cue.channels|
  {
    if n == 0 then []
    else Contradictions(earlier, cue, n - 1) + if Contradicts(earlier, cue, n - 1) then [cue.channels[n - 1]] else []
  }

  /** A channel is listed exactly when some occurrence of it in the cue repeats what its latest earlier mention by
      an open or close cue said. */
  lemma {:induction false} ListedIff(earlier: seq<Cue>, cue: Cue, n: nat, channel: int)
    requires n <= |cue.channels|
    ensures channel in Contradictions(earlier, cue, n) <==> exists k :: 0 <= k < n && Repeats(earlier, cue, k, channel)
    decreases n
  {
    if n > 0 {
      ListedIff(earlier, cue, n - 1, channel);
      var before, last := Contradictions(earlier, cue, n - 1), cue.channels[n - 1];
      if Contradicts(earlier, cue, n - 1) {
        assert channel in before + [last] <==> channel in before || channel == last;
        assert channel == last ==> Repeats(earlier, cue, n - 1, channel);
      } else {
        assert before + [] == before;
      }
      assert forall k :: 0 <= k < n && Repeats(earlier, cue, k, channel) ==>
            k < n - 1 || (channel == last && Contradicts(earlier, cue, n - 1));
    }
  }

  /** The k-th channel of the cue is the given one, and contradicts. */
  predicate Repeats(earlier: seq<Cue>, cue: Cue, k: nat, channel: int)
    requires k < |cue.channels|
  {
    cue.channels[k] == channel && Contradicts(earlier, cue, k)
  }

  /** An open or a close cue names the channel. */
  ghost predicate Moves(cue: Cue, channel: int) {
    (cue.action == "open" || cue.action == "close") && Names(cue.channels, channel)
  }

  ghost predicate Names(channels: seq<int>, channel: int) {
    exists j :: 0 <= j < |channels| && channels[j] == channel
  }

  /** The i-th cue is the latest that moves the channel. */
  ghost predicate LatestMove(cues: seq<Cue>, channel: int, i: nat) {
    && i < |cues| && Moves(cues[i], channel)
    && forall j :: i < j < |cues| ==> !Moves(cues[j], channel)
  }

  /** What was read before the k-th channel of a cue: the cues before it, and its own list so far. */
  ghost function ReadBefore(earlier: seq<Cue>, cue: Cue, k: nat): seq<Cue>
    requires k <= |cue.channels|
  {
    earlier + [Cue(cue.action, cue.channels[..k], None)]
  }

  /** The k-th channel contradicts exactly when its cue opens or closes and the latest cue to move that channel, be it
      the cue itself earlier in its list, had the same action. */
  lemma ContradictsIff(earlier: seq<Cue>, cue: Cue, k: nat)
    requires k < |cue.channels|
    ensures Contradicts(earlier, cue, k) <==>
      && (cue.action == "open" || cue.action == "close")
      && exists i: nat :: LatestMove(ReadBefore(earlier, cue, k), cue.channels[k], i)
                          && ReadBefore(earlier, cue, k)[i].action == cue.action
  {
    var wanted, read := StateOf(cue.action), ReadBefore(earlier, cue, k);
    if wanted.Some? {
      MentionsSnoc(earlier, read[|earlier|]);
      LatestMoveIs(read, cue.channels[k], wanted.value);
    }
  }

  lemma {:induction false} LatestOver(mentions: seq<Mention>, channels: seq<int>, open: bool, channel: int)
    ensures Latest(mentions + MentionsOf(channels, open), channel) ==
            if Names(channels, channel) then Some(open) else Latest(mentions, channel)
  {
    hide Latest, Names;
    if channels == [] {
      NamesNone(channel);
      assert mentions + [] == mentions;
    } else {
      var n := |channels| - 1;
      LatestOver(mentions, channels[..n], open, channel);
      NamesMore(channels, channel);
      Regroup(mentions, MentionsOf(channels[..n], open), [Mention(channels[n], open)]);
      LatestSnoc(mentions + MentionsOf(channels[..n], open), Mention(channels[n], open), channel);
    }
  }

  lemma NamesNone(channel: int)
    ensures !Names([], channel)
  {
  }

  lemma LatestSnoc(mentions: seq<Mention>, mention: Mention, channel: int)
    ensures Latest(mentions + [mention], channel) ==
            if mention.channel == channel then Some(mention.open) else Latest(mentions, channel)
  {
    assert (mentions + [mention])[..|mentions|] == mentions;
  }

  lemma NamesMore(channels: seq<int>, channel: int)
    requires channels != []
    ensures var n := |channels| - 1;
      Names(channels, channel) <==> Names(channels[..n], channel) || channels[n] == channel
  {
    var n := |channels| - 1;
    if j :| 0 <= j < n && channels[j] == channel {
      assert channels[..n][j] == channel;
    }
  }

  /** What the latest mention said is what the latest cue to move the channel did. */
  lemma {:induction false} LatestMoveIs(cues: seq<Cue>, channel: int, open: bool)
    ensures Latest(Mentions(cues), channel) == Some(open) <==>
      exists i: nat :: LatestMove(cues, channel, i) && cues[i].action == if open then "open" else "close"
  {
    hide Latest, CueMentions;
    if cues == [] {
      NoMention(channel);
    } else {
      var n := |cues| - 1;
      var front, last := cues[..n], cues[n];
      LatestMoveIs(front, channel, open);
      LatestCue(Mentions(front), last, channel);
      if Moves(last, channel) {
        assert LatestMove(cues, channel, n);
      } else {
        forall i: nat
          ensures LatestMove(cues, channel, i) <==> LatestMove(front, channel, i)
        {
          StillLatest(cues, channel, i);
        }
      }
    }
  }

  lemma NoMention(channel: int)
    ensures Latest([], channel).None?
  {
  }

  lemma StillLatest(cues: seq<Cue>, channel: int, i: nat)
    requires cues != [] && !Moves(cues[|cues| - 1], channel)
    ensures LatestMove(cues, channel, i) <==> LatestMove(cues[..|cues| - 1], channel, i)
  {
    hide Moves;
    var front := cues[..|cues| - 1];
    assert forall j :: 0 <= j < |front| ==> front[j] == cues[j];
  }

  lemma LatestCue(mentions: seq<Mention>, cue: Cue, channel: int)
    ensures Latest(mentions + CueMentions(cue), channel) ==
            if Moves(cue, channel) then Some(cue.action == "open") else Latest(mentions, channel)
  {
    var wanted := StateOf(cue.action);
    if wanted.Some? {
      LatestOver(mentions, cue.channels, wanted.value, channel);
    } else {
      assert mentions + [] == mentions;
    }
  }

  /** The m-th of these places is a contradicting one, further on than those before it, and its channel is listed
      there. */
  ghost predicate PlaceAt(earlier: seq<Cue>, cue: Cue, listed: seq<int>, places: seq<nat>, m: nat)
    requires m < |places| == |listed|
  {
    && places[m] < |cue.channels| && Contradicts(earlier, cue, places[m]) && listed[m] == cue.channels[places[m]]
    && (m > 0 ==> places[m - 1] < places[m])
  }

  ghost predicate Among(places: seq<nat>, k: nat) {
    exists m :: 0 <= m < |places| && places[m] == k
  }

  /** These are the places of the channels listed, and of all that contradict among the first `n`. */
  ghost predicate PlacesOf(earlier: seq<Cue>, cue: Cue, n: nat, listed: seq<int>, places: seq<nat>)
    requires n <= |cue.channels|
  {
    && |listed| == |places|
    && (forall m :: 0 <= m < |places| ==> PlaceAt(earlier, cue, listed, places, m))
    && (forall k: nat :: k < n ==> (Among(places, k) <==> Contradicts(earlier, cue, k)))
    && (forall k: nat :: n <= k ==> !Among(places, k))
  }

  lemma OneMorePlace(earlier: seq<Cue>, cue: Cue, n: nat, listed: seq<int>, places: seq<nat>)
    requires n < |cue.channels| && PlacesOf(earlier, cue, n, listed, places) && Contradicts(earlier, cue, n)
    ensures PlacesOf(earlier, cue, n + 1, listed + [cue.channels[n]], places + [n])
  {
    hide Contradicts;
    var listed', places' := listed + [cue.channels[n]], places + [n];
    forall k: nat
      ensures Among(places', k) <==> Among(places, k) || k == n
    {
      AmongMore(places, n, k);
    }
    forall m | 0 <= m < |places'|
      ensures PlaceAt(earlier, cue, listed', places', m)
    {
      if m < |places| {
        assert PlaceAt(earlier, cue, listed, places, m);
      } else if m > 0 {
        assert Among(places, places[m - 1]);
      }
    }
  }

  lemma AmongMore(places: seq<nat>, n: nat, k: nat)
    ensures Among(places + [n], k) <==> Among(places, k) || k == n
  {
    var more := places + [n];
    assert more[|places|] == n;
    if m :| 0 <= m < |places| && places[m] == k {
      assert more[m] == k;
    }
  }

  /** The list keeps the order of the cue's channels, with a repetition for each that contradicts. */
  lemma {:induction false} ListedInOrder(earlier: seq<Cue>, cue: Cue, n: nat) returns (places: seq<nat>)
    requires n <= |cue.channels|
    ensures PlacesOf(earlier, cue, n, Contradictions(earlier, cue, n), places)
    decreases n
  {
    hide Contradicts;
    if n == 0 {
      places := [];
    } else {
      places := ListedInOrder(earlier, cue, n - 1);
      var listed := Contradictions(earlier, cue, n - 1);
      if Contradicts(earlier, cue, n - 1) {
        OneMorePlace(earlier, cue, n - 1, listed, places);
        places := places + [n - 1];
      } else {
        assert listed + [] == listed;
      }
    }
  }

  /** The last readable time of the given cues. */
  function LastTime(cues: seq<Cue>, parse: string -> Option<int>): Option<int> {
    if cues == [] then None
    else
      var seconds := SecondsOf(cues[|cues| - 1], parse);
      if seconds.Some? then seconds else LastTime(cues[..|cues| - 1], parse)
  }

  function Gap(earlier: seq<Cue>, cue: Cue, parse: string -> Option<int>): Option<int> {
    var seconds, last := SecondsOf(cue, parse), LastTime(earlier, parse);
    if seconds.Some? && last.Some? then Some(seconds.value - last.value) else None
  }

  /** The cue gives a time, and it reads. */
  ghost predicate Timed(cue: Cue, parse: string -> Option<int>) {
    cue.time.Some? && cue.time.value != "" && parse(cue.time.value).Some?
  }

  ghost function TimeOf(cue: Cue, parse: string -> Option<int>): int
    requires Timed(cue, parse)
  {
    parse(cue.time.value).value
  }

  /** The i-th cue is the last of these whose time reads. */
  ghost predicate LastTimed(cues: seq<Cue>, parse: string -> Option<int>, i: nat) {
    && i < |cues| && Timed(cues[i], parse)
    && forall j :: i < j < |cues| ==> !Timed(cues[j], parse)
  }

  lemma {:induction false} LastTimeIs(cues: seq<Cue>, parse: string -> Option<int>, i: nat)
    requires LastTimed(cues, parse, i)
    ensures LastTime(cues, parse) == Some(TimeOf(cues[i], parse))
    decreases |cues|
  {
    var n := |cues| - 1;
    if i < n {
      assert !Timed(cues[n], parse);
      LastTimeIs(cues[..n], parse, i);
    }
  }

  lemma {:induction false} LastTimeNone(cues: seq<Cue>, parse: string -> Option<int>)
    ensures LastTime(cues, parse).None? <==> forall j :: 0 <= j < |cues| ==> !Timed(cues[j], parse)
  {
    if cues != [] {
      var n := |cues| - 1;
      LastTimeNone(cues[..n], parse);
      assert forall j :: 0 <= j < n ==> cues[..n][j] == cues[j];
    }
  }

  /** A gap is given exactly when the cue's own time reads and an earlier one's does, and is then measured from the
      last of these, in whatever segment: unreadable times in between are passed over. */
  lemma GapIs(earlier: seq<Cue>, cue: Cue, parse: string -> Option<int>, i: nat)
    ensures LastTimed(earlier, parse, i) && Timed(cue, parse) ==>
      Gap(earlier, cue, parse) == Some(TimeOf(cue, parse) - TimeOf(earlier[i], parse))
    ensures Gap(earlier, cue, parse).Some? <==>
      Timed(cue, parse) && exists j :: 0 <= j < |earlier| && Timed(earlier[j], parse)
  {
    if LastTimed(earlier, parse, i) { LastTimeIs(earlier, parse, i); }
    LastTimeNone(earlier, parse);
  }

  function Notes(earlier: seq<Cue>, cue: Cue, parse: string -> Option<int>): CueNotes {
    CueNotes(Contradictions(earlier, cue, |cue.channels|), Gap(earlier, cue, parse))
  }

  /** The notes of cues that follow the given ones, each judged against all before it. */
  function NotesOf(earlier: seq<Cue>, cues: seq<Cue>, parse: string -> Option<int>): seq<CueNotes>
    decreases |cues|
  {
    if cues == [] then [] else [Notes(earlier, cues[0], parse)] + NotesOf(earlier + [cues[0]], cues[1..], parse)
  }

  /** The same segment by segment. */
  function AllNotes(earlier: seq<Cue>, segments: seq<Segment>, parse: string -> Option<int>): seq<seq<CueNotes>>
    decreases |segments|
  {
    if segments == [] then []
    else [NotesOf(earlier, segments[0].cues, parse)] + AllNotes(earlier + segments[0].cues, segments[1..], parse)
  }

  function Flat(segments: seq<Segment>): seq<Cue> {
    if segments == [] then [] else segments[0].cues + Flat(segments[1..])
  }

  /** All cues of all segments, in the order of the file. */
  lemma {:induction false} FlatIs(segments: seq<Segment>, segment: Segment)
    ensures Flat([]) == [] && Flat(segments + [segment]) == Flat(segments) + segment.cues
  {
    if segments == [] {
      assert [] + [segment] == [segment] && [segment][1..] == [] && segment.cues + [] == segment.cues;
    } else {
      assert (segments + [segment])[1..] == segments[1..] + [segment];
      FlatIs(segments[1..], segment);
      Regroup(segments[0].cues, Flat(segments[1..]), segment.cues);
    }
  }

  lemma {:induction false} NotesAt(earlier: seq<Cue>, cues: seq<Cue>, parse: string -> Option<int>, c: nat)
    requires c < |cues|
    ensures |NotesOf(earlier, cues, parse)| == |cues|
    ensures NotesOf(earlier, cues, parse)[c] == Notes(earlier + cues[..c], cues[c], parse)
    decreases |cues|
  {
    if c == 0 {
      assert earlier + cues[..0] == earlier;
      if |cues| > 1 { NotesAt(earlier + [cues[0]], cues[1..], parse, 0); }
    } else {
      NotesAt(earlier + [cues[0]], cues[1..], parse, c - 1);
      assert cues[..c] == [cues[0]] + cues[1..][..c - 1];
      Regroup(earlier, [cues[0]], cues[1..][..c - 1]);
    }
  }

  /** The c-th cue of the s-th segment is judged against every cue before it in the file. */
  lemma {:induction false} AllNotesAt(earlier: seq<Cue>, segments: seq<Segment>, parse: string -> Option<int>,
                                      s: nat, c: nat)
    requires s < |segments| && c < |segments[s].cues|
    ensures |AllNotes(earlier, segments, parse)| == |segments|
    ensures var notes := AllNotes(earlier, segments, parse)[s];
      && |notes| == |segments[s].cues|
      && notes[c] == Notes(earlier + (Flat(segments[..s]) + segments[s].cues[..c]), segments[s].cues[c], parse)
    decreases |segments|
  {
    AllNotesLength(earlier, segments, parse);
    if s == 0 {
      NotesAt(earlier, segments[0].cues, parse, c);
      assert Flat(segments[..0]) + segments[0].cues[..c] == segments[0].cues[..c];
    } else {
      AllNotesAt(earlier + segments[0].cues, segments[1..], parse, s - 1, c);
      FlatStep(earlier, segments, s, segments[s].cues[..c]);
    }
  }

  lemma FlatStep(earlier: seq<Cue>, segments: seq<Segment>, s: nat, tail: seq<Cue>)
    requires 0 < s <= |segments|
    ensures earlier + segments[0].cues + (Flat(segments[1..][..s - 1]) + tail) == earlier + (Flat(segments[..s]) + tail)
  {
    assert segments[..s][1..] == segments[1..][..s - 1];
    var middle := Flat(segments[1..][..s - 1]);
    Regroup(segments[0].cues, middle, tail);
    Regroup(earlier, segments[0].cues, middle + tail);
  }

  lemma {:induction false} AllNotesLength(earlier: seq<Cue>, segments: seq<Segment>, parse: string -> Option<int>)
    ensures |AllNotes(earlier, segments, parse)| == |segments|
    decreases |segments|
  {
    if segments != [] {
      AllNotesLength(earlier + segments[0].cues, segments[1..], parse);
    }
  }

  // ----- the book

  /** The book holds what the latest mention of each channel said. */
  ghost predicate BookOf(state: map<int, bool>, mentions: seq<Mention>) {
    forall channel :: Latest(mentions, channel) == if channel in state then Some(state[channel]) else None
  }

  lemma BookGrows(state: map<int, bool>, mentions: seq<Mention>, channel: int, open: bool)
    requires BookOf(state, mentions)
    ensures BookOf(state[channel := open], mentions + [Mention(channel, open)])
  {
    assert (mentions + [Mention(channel, open)])[..|mentions|] == mentions;
  }

  /** The loop over one cue's channels. */
  method NoteCue(cue: Cue, state: map<int, bool>, ghost earlier: seq<Cue>) returns (contradictions: seq<int>,
                 state': map<int, bool>)
    requires BookOf(state, Mentions(earlier))
    ensures contradictions == Contradictions(earlier, cue, |cue.channels|)
    ensures BookOf(state', Mentions(earlier + [cue]))
  {
    contradictions, state' := [], state;
    ghost var said := Mentions(earlier);
    var wanted := StateOf(cue.action);
    SaidEnds(earlier, cue);
    if wanted.None? {
      NothingListed(earlier, cue, |cue.channels|);
      return;
    }
    for k := 0 to |cue.channels|
      invariant contradictions == Contradictions(earlier, cue, k)
      invariant said == Said(earlier, cue, k, wanted.value)
      invariant BookOf(state', said)
    {
      var number := cue.channels[k];
      NextChannel(state', said, earlier, cue, k, wanted.value);
      if number in state' && state'[number] == wanted.value {
        contradictions := contradictions + [number];
      }
      said := said + [Mention(number, wanted.value)];
      state' := state'[number := wanted.value];
    }
  }

  /** What was said before a cue's list and after it. */
  lemma SaidEnds(earlier: seq<Cue>, cue: Cue)
    ensures var wanted, n := StateOf(cue.action), |cue.channels|;
      if wanted.None? then Mentions(earlier + [cue]) == Mentions(earlier)
      else Said(earlier, cue, 0, wanted.value) == Mentions(earlier) &&
           Said(earlier, cue, n, wanted.value) == Mentions(earlier + [cue])
  {
    MentionsSnoc(earlier, cue);
    assert Mentions(earlier) + [] == Mentions(earlier);
    assert cue.channels[..0] == [] && cue.channels[..|cue.channels|] == cue.channels;
  }

  lemma NextChannel(state: map<int, bool>, said: seq<Mention>, earlier: seq<Cue>, cue: Cue, k: nat, open: bool)
    requires k < |cue.channels| && StateOf(cue.action) == Some(open)
    requires BookOf(state, said) && said == Said(earlier, cue, k, open)
    ensures var number := cue.channels[k];
      && Contradictions(earlier, cue, k + 1) ==
           (if number in state && state[number] == open then Contradictions(earlier, cue, k) + [number]
            else Contradictions(earlier, cue, k))
      && said + [Mention(number, open)] == Said(earlier, cue, k + 1, open)
      && BookOf(state[number := open], said + [Mention(number, open)])
  {
    var number := cue.channels[k];
    assert Latest(said, number) == if number in state then Some(state[number]) else None;
    BookGrows(state, said, number, open);
    MentionsOfNext(Mentions(earlier), cue.channels, open, k);
    assert Contradictions(earlier, cue, k) + [] == Contradictions(earlier, cue, k);
  }

  lemma {:induction false} NothingListed(earlier: seq<Cue>, cue: Cue, n: nat)
    requires n <= |cue.channels| && StateOf(cue.action).None?
    ensures Contradictions(earlier, cue, n) == []
    decreases n
  {
    if n > 0 {
      NothingListed(earlier, cue, n - 1);
    }
  }

  lemma LastTimeSnoc(cues: seq<Cue>, cue: Cue, parse: string -> Option<int>)
    ensures LastTime(cues + [cue], parse) ==
            if SecondsOf(cue, parse).Some? then SecondsOf(cue, parse) else LastTime(cues, parse)
  {
    assert (cues + [cue])[..|cues|] == cues;
  }

  lemma NextNotes(views: seq<CueNotes>, sofar: seq<Cue>, cues: seq<Cue>, i: nat, parse: string -> Option<int>)
    requires i < |cues|
    ensures views + NotesOf(sofar, cues[i..], parse) ==
            views + [Notes(sofar, cues[i], parse)] + NotesOf(sofar + [cues[i]], cues[i + 1..], parse)
  {
    assert cues[i..][1..] == cues[i + 1..];
    Regroup(views, [Notes(sofar, cues[i], parse)], NotesOf(sofar + [cues[i]], cues[i + 1..], parse));
  }

  /** The loop over one segment's cues. */
  method BuildSegment(segment: Segment, parse: string -> Option<int>, state: map<int, bool>, previous: Option<int>,
                      ghost earlier: seq<Cue>)
    returns (views: seq<CueNotes>, state': map<int, bool>, previous': Option<int>)
    requires BookOf(state, Mentions(earlier)) && previous == LastTime(earlier, parse)
    ensures views == NotesOf(earlier, segment.cues, parse)
    ensures BookOf(state', Mentions(earlier + segment.cues)) && previous' == LastTime(earlier + segment.cues, parse)
  {
    views, state', previous' := [], state, previous;
    ghost var sofar := earlier;
    assert segment.cues[0..] == segment.cues && earlier + segment.cues[..0] == earlier;
    assert [] + NotesOf(earlier, segment.cues, parse) == NotesOf(earlier, segment.cues, parse);
    for i := 0 to |segment.cues|
      invariant sofar == earlier + segment.cues[..i]
      invariant views + NotesOf(sofar, segment.cues[i..], parse) == NotesOf(earlier, segment.cues, parse)
      invariant BookOf(state', Mentions(sofar)) && previous' == LastTime(sofar, parse)
    {
      NextNotes(views, sofar, segment.cues, i, parse);
      var notes;
      notes, state', previous' := BuildCue(segment.cues[i], parse, state', previous', sofar);
      views := views + [notes];
      NextCue(earlier, segment.cues, i);
      sofar := sofar + [segment.cues[i]];
    }
    assert segment.cues[..|segment.cues|] == segment.cues && segment.cues[|segment.cues|..] == [];
    assert views + [] == views;
  }

  /** One cue: its contradictions, its gap, and the book and clock after it. */
  method BuildCue(cue: Cue, parse: string -> Option<int>, state: map<int, bool>, previous: Option<int>,
                  ghost earlier: seq<Cue>)
    returns (notes: CueNotes, state': map<int, bool>, previous': Option<int>)
    requires BookOf(state, Mentions(earlier)) && previous == LastTime(earlier, parse)
    ensures notes == Notes(earlier, cue, parse)
    ensures BookOf(state', Mentions(earlier + [cue])) && previous' == LastTime(earlier + [cue], parse)
  {
    LastTimeSnoc(earlier, cue, parse);
    var contradictions;
    contradictions, state' := NoteCue(cue, state, earlier);
    var seconds := SecondsOf(cue, parse);
    var gap := if seconds.Some? && previous.Some? then Some(seconds.value - previous.value) else None;
    previous' := if seconds.Some? then seconds else previous;
    notes := CueNotes(contradictions, gap);
  }

  lemma NextCue(earlier: seq<Cue>, cues: seq<Cue>, i: nat)
    requires i < |cues|
    ensures earlier + cues[..i] + [cues[i]] == earlier + cues[..i + 1]
  {
    assert cues[..i + 1] == cues[..i] + [cues[i]];
    Regroup(earlier, cues[..i], [cues[i]]);
  }

  lemma NextSegment(views: seq<seq<CueNotes>>, sofar: seq<Cue>, segments: seq<Segment>, i: nat,
                    parse: string -> Option<int>)
    requires i < |segments|
    ensures views + AllNotes(sofar, segments[i..], parse) ==
            views + [NotesOf(sofar, segments[i].cues, parse)]
                + AllNotes(sofar + segments[i].cues, segments[i + 1..], parse)
  {
    assert segments[i..][1..] == segments[i + 1..];
    Regroup(views, [NotesOf(sofar, segments[i].cues, parse)],
            AllNotes(sofar + segments[i].cues, segments[i + 1..], parse));
  }

  /** `build`: one book for the whole sheet. Each cue lists exactly its contradictions, judged against every cue
      before it in all segments and against its own list so far, and its gap is measured from the last readable
      time. */
  method Build(segments: seq<Segment>, parse: string -> Option<int>) returns (views: seq<seq<CueNotes>>)
    ensures views == AllNotes([], segments, parse)
    ensures |views| == |segments|
  {
    var state: map<int, bool> := map[];
    var previous: Option<int> := None;
    views := [];
    ghost var sofar: seq<Cue> := [];
    assert segments[0..] == segments && [] + AllNotes([], segments, parse) == AllNotes([], segments, parse);
    for i := 0 to |segments|
      invariant views + AllNotes(sofar, segments[i..], parse) == AllNotes([], segments, parse)
      invariant BookOf(state, Mentions(sofar)) && previous == LastTime(sofar, parse)
    {
      NextSegment(views, sofar, segments, i, parse);
      var notes;
      notes, state, previous := BuildSegment(segments[i], parse, state, previous, sofar);
      views := views + [notes];
      sofar := sofar + segments[i].cues;
    }
    assert segments[|segments|..] == [] && views + [] == views;
    AllNotesLength([], segments, parse);
  }

  /** What the views say, cue by cue: the contradicting ones among all its channels, in their order, and its gap, each
      judged against every cue before it in the file. */
  lemma ViewIs(segments: seq<Segment>, parse: string -> Option<int>, s: nat, c: nat) returns (places: seq<nat>)
    requires s < |segments| && c < |segments[s].cues|
    ensures |AllNotes([], segments, parse)| == |segments| && |AllNotes([], segments, parse)[s]| == |segments[s].cues|
    ensures var notes, cue := AllNotes([], segments, parse)[s][c], segments[s].cues[c];
      var before := Flat(segments[..s]) + segments[s].cues[..c];
      && PlacesOf(before, cue, |cue.channels|, notes.contradictions, places)
      && notes.gap == Gap(before, cue, parse)
  {
    AllNotesAt([], segments, parse, s, c);
    var before := Flat(segments[..s]) + segments[s].cues[..c];
    assert [] + before == before;
    places := ListedInOrder(before, segments[s].cues[c], |segments[s].cues[c].channels|);
  }

  /** A cue that neither opens nor closes leaves the book alone, and nothing is listed for it. */
  lemma OthersLeaveTheBook(cues: seq<Cue>, other: Cue, more: seq<Cue>)
    requires other.action != "open" && other.action != "close"
    ensures Mentions(cues + [other] + more) == Mentions(cues + more)
    ensures Contradictions(cues, other, |other.channels|) == []
  {
    OthersSayNothing(cues, other, more);
    NothingListed(cues, other, |other.channels|);
  }

  lemma {:induction false} OthersSayNothing(cues: seq<Cue>, other: Cue, more: seq<Cue>)
    requires StateOf(other.action).None?
    ensures Mentions(cues + [other] + more) == Mentions(cues + more)
    decreases |more|
  {
    if more == [] {
      assert cues + [other] + [] == cues + [other] && cues + [] == cues;
      MentionsSnoc(cues, other);
      assert Mentions(cues) + [] == Mentions(cues);
    } else {
      var front, last := more[..|more| - 1], more[|more| - 1];
      OthersSayNothing(cues, other, front);
      Peel(cues + [other], more);
      Peel(cues, more);
      MentionsSnoc(cues + [other] + front, last);
      MentionsSnoc(cues + front, last);
    }
  }

  lemma Peel<T>(xs: seq<T>, ys: seq<T>)
    requires ys != []
    ensures xs + ys == xs + ys[..|ys| - 1] + [ys[|ys| - 1]]
  {
  }

  // ----- the kinds a sheet expects

  /** One segment names one kind it expects. */
  datatype Want = Want(kind: string, id: string)

  function Wants(id: string, kinds: seq<string>): seq<Want> {
    if kinds == [] then [] else [Want(kinds[0], id)] + Wants(id, kinds[1..])
  }

  function AllWants(segments: seq<Segment>): seq<Want> {
    if segments == [] then [] else Wants(segments[0].id, segments[0].expects) + AllWants(segments[1..])
  }

  function KindsOf(wants: seq<Want>): seq<string> {
    if wants == [] then [] else KindsOf(wants[..|wants| - 1]) + [wants[|wants| - 1].kind]
  }

  /** The segments that name a kind, in order, as often as they do. */
  function IdsFor(wants: seq<Want>, kind: string): seq<string> {
    if wants == [] then []
    else
      var before, last := IdsFor(wants[..|wants| - 1], kind), wants[|wants| - 1];
      if last.kind == kind then before + [last.id] else before
  }

  /** Each kind that a segment expects is noted once for it, segment by segment in order. */
  lemma {:induction false} WantsAre(segments: seq<Segment>, segment: Segment)
    ensures AllWants([]) == []
    ensures AllWants(segments + [segment]) ==
            AllWants(segments) + seq(|segment.expects|, k requires 0 <= k < |segment.expects| =>
                                                          Want(segment.expects[k], segment.id))
  {
    var last := seq(|segment.expects|, k requires 0 <= k < |segment.expects| => Want(segment.expects[k], segment.id));
    if segments == [] {
      assert [] + [segment] == [segment] && [segment][1..] == [];
      WantsAt(segment.id, segment.expects);
      assert Wants(segment.id, segment.expects) == last;
      assert AllWants([segment]) == last + [] == last;
    } else {
      assert (segments + [segment])[1..] == segments[1..] + [segment];
      WantsAre(segments[1..], segment);
      Regroup(Wants(segments[0].id, segments[0].expects), AllWants(segments[1..]), last);
    }
  }

  lemma {:induction false} WantsAt(id: string, kinds: seq<string>)
    ensures |Wants(id, kinds)| == |kinds|
    ensures forall k :: 0 <= k < |kinds| ==> Wants(id, kinds)[k] == Want(kinds[k], id)
  {
    if kinds != [] {
      WantsAt(id, kinds[1..]);
    }
  }

  lemma {:induction false} KindsAt(wants: seq<Want>)
    ensures |KindsOf(wants)| == |wants|
    ensures forall k :: 0 <= k < |wants| ==> KindsOf(wants)[k] == wants[k].kind
  {
    if wants != [] {
      KindsAt(wants[..|wants| - 1]);
    }
  }

  /** The segments under a kind are those of the wants that name it, in order. */
  lemma {:induction false} IdsForEach(want: Want, wants: seq<Want>, kind: string)
    ensures IdsFor([], kind) == []
    ensures IdsFor([want] + wants, kind) == (if want.kind == kind then [want.id] else []) + IdsFor(wants, kind)
  {
    var all := [want] + wants;
    if wants == [] {
      assert all == [want] && [want][..0] == [];
    } else {
      assert all[..|all| - 1] == [want] + wants[..|wants| - 1];
      IdsForEach(want, wants[..|wants| - 1], kind);
    }
  }

  /** The dict of the loop: its keys in order, and the segments under each. */
  datatype Expected = Expected(order: seq<string>, ids: map<string, seq<string>>)

  function IdsUnder(e: Expected, kind: string): seq<string> {
    if kind in e.ids then e.ids[kind] else []
  }

  /** `setdefault`, and an append of what is not there. */
  function Noted(e: Expected, want: Want): Expected {
    var known := IdsUnder(e, want.kind);
    Expected(if want.kind in e.ids then e.order else e.order + [want.kind],
             e.ids[want.kind := if want.id in Elements(known) then known else known + [want.id]])
  }

  function NotedAll(e: Expected, wants: seq<Want>): Expected
    decreases |wants|
  {
    if wants == [] then e else NotedAll(Noted(e, wants[0]), wants[1..])
  }

  lemma {:induction false} NotedConcat(e: Expected, first: seq<Want>, rest: seq<Want>)
    ensures NotedAll(e, first + rest) == NotedAll(NotedAll(e, first), rest)
    decreases |first|
  {
    if first == [] {
      assert [] + rest == rest;
    } else {
      assert (first + rest)[1..] == first[1..] + rest;
      NotedConcat(Noted(e, first[0]), first[1..], rest);
    }
  }

  lemma NotedAllSnoc(e: Expected, wants: seq<Want>)
    requires wants != []
    ensures NotedAll(e, wants) == Noted(NotedAll(e, wants[..|wants| - 1]), wants[|wants| - 1])
  {
    var last := [wants[|wants| - 1]];
    assert wants == wants[..|wants| - 1] + last;
    NotedConcat(e, wants[..|wants| - 1], last);
    assert last[1..] == [];
  }

  /** The kinds come in first-seen order. */
  lemma {:induction false} KindsInOrder(wants: seq<Want>)
    ensures var e := NotedAll(Expected([], map[]), wants);
      e.order == FirstSeen(KindsOf(wants)) && e.ids.Keys == Elements(e.order)
    decreases |wants|
  {
    if wants != [] {
      var front, last := wants[..|wants| - 1], wants[|wants| - 1];
      KindsInOrder(front);
      NotedAllSnoc(Expected([], map[]), wants);
      var e := NotedAll(Expected([], map[]), front);
      Append(e.order, last.kind);
      assert (KindsOf(front) + [last.kind])[..|KindsOf(front)|] == KindsOf(front);
    }
  }

  /** Under each kind are the segments that name it, each once, in first-seen order. */
  lemma {:induction false} IdsInOrder(wants: seq<Want>, kind: string)
    ensures IdsUnder(NotedAll(Expected([], map[]), wants), kind) == FirstSeen(IdsFor(wants, kind))
    decreases |wants|
  {
    if wants != [] {
      var front, last := wants[..|wants| - 1], wants[|wants| - 1];
      IdsInOrder(front, kind);
      NotedAllSnoc(Expected([], map[]), wants);
      var before := IdsFor(front, kind);
      assert (before + [last.id])[..|before|] == before;
    }
  }

  /** The loop over one segment's kinds. */
  method NoteKinds(segment: Segment, e: Expected) returns (e': Expected)
    ensures e' == NotedAll(e, Wants(segment.id, segment.expects))
  {
    e' := e;
    assert segment.expects[0..] == segment.expects;
    for i := 0 to |segment.expects|
      invariant NotedAll(e', Wants(segment.id, segment.expects[i..])) == NotedAll(e, Wants(segment.id, segment.expects))
    {
      var kind := segment.expects[i];
      var known, order := [], e'.order;
      if kind in e'.ids {
        known := e'.ids[kind];
      } else {
        order := order + [kind];
      }
      FirstWant(segment.id, segment.expects, i);
      InElements(known, segment.id);
      e' := Expected(order, e'.ids[kind := if segment.id in known then known else known + [segment.id]]);
    }
    assert segment.expects[|segment.expects|..] == [];
  }

  lemma FirstWant(id: string, kinds: seq<string>, i: nat)
    requires i < |kinds|
    ensures var wants := Wants(id, kinds[i..]);
      wants != [] && wants[0] == Want(kinds[i], id) && wants[1..] == Wants(id, kinds[i + 1..])
  {
    assert kinds[i..][1..] == kinds[i + 1..];
  }

  /** `build_expectations`: one entry for each distinct kind in first-seen order, with the segments that name it,
      each once, in first-seen order. */
  method BuildExpectations(segments: seq<Segment>) returns (e: Expected)
    ensures e.order == FirstSeen(KindsOf(AllWants(segments))) && e.ids.Keys == Elements(e.order)
    ensures forall kind :: IdsUnder(e, kind) == FirstSeen(IdsFor(AllWants(segments), kind))
  {
    e := Expected([], map[]);
    ghost var none := e;
    assert segments[0..] == segments;
    for i := 0 to |segments|
      invariant NotedAll(e, AllWants(segments[i..])) == NotedAll(none, AllWants(segments))
    {
      assert segments[i..][1..] == segments[i + 1..];
      NotedConcat(e, Wants(segments[i].id, segments[i].expects), AllWants(segments[i + 1..]));
      e := NoteKinds(segments[i], e);
    }
    assert segments[|segments|..] == [];
    KindsInOrder(AllWants(segments));
    forall kind
      ensures IdsUnder(e, kind) == FirstSeen(IdsFor(AllWants(segments), kind))
    {
      IdsInOrder(AllWants(segments), kind);
    }
  }
}
