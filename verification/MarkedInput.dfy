/**
 What a byte order mark means to a decode (src/encoding/encodings.ts `decode`, `decodeQueue`): the encoding whose bytes
 for U+FEFF the input begins with decodes the rest; without such a beginning the fallback decodes everything.
 */
module MarkedInput {
  import opened Codec
  import opened QueueSpec
  import opened QueueProcessing
  import Utf8

  /** The encodings that have a mark, and U+FEFF in each. */
  const MARKED: set<Encoding> := {"UTF-8", "UTF-16BE", "UTF-16LE"}

  function EncodedMark(encoding: Encoding): seq<nat>
    requires encoding in MARKED
  {
    if encoding == "UTF-8" then Utf8.EncodePoint(0xFEFF)
    else if encoding == "UTF-16BE" then [0xFEFF / 256, 0xFEFF % 256]
    else [0xFEFF % 256, 0xFEFF / 256]
  }

  predicate Begins(encoding: Encoding, input: seq<nat>)
    requires encoding in MARKED
  {
    EncodedMark(encoding) <= input
  }

  /** Where a run has come to is where one call of the codec comes to, with `late` behind what it leaves. */
  predicate EndsLike<S(==)>(p: Process<S>, whole: Call<S>, late: seq<nat>)
  {
    p.status == Done(whole.outcome) && p.output == whole.output && p.queue.items == whole.unread + late
  }

  lemma ThreeMarks(encoding: Encoding)
    requires encoding in MARKED
    ensures EncodedMark(encoding) ==
      if encoding == "UTF-8" then [0xEF, 0xBB, 0xBF] else if encoding == "UTF-16BE" then [0xFE, 0xFF] else [0xFF, 0xFE]
  {
  }

  /** Complete input that begins with a mark is the rest in that encoding, whatever the fallback. */
  lemma DecodeMarked<S>(codecs: Encoding -> Codec<S>, encoding: Encoding, rest: seq<nat>, fallback: Encoding)
    requires encoding in MARKED
    ensures Complete(true, codecs, EncodedMark(encoding) + rest, fallback) == Whole(codecs(encoding), rest)
  {
    hide Whole;
    ThreeMarks(encoding);
    var mark := EncodedMark(encoding);
    assert (mark + rest)[|mark|..] == rest;
    assert (mark + rest)[0] == mark[0] && (mark + rest)[1] == mark[1];
  }

  lemma DecodeUnmarked<S>(codecs: Encoding -> Codec<S>, input: seq<nat>, fallback: Encoding)
    requires forall encoding :: encoding in MARKED ==> !Begins(encoding, input)
    ensures Complete(true, codecs, input, fallback) == Whole(codecs(fallback), input)
  {
    hide Whole;
    ThreeMarks("UTF-8");
    ThreeMarks("UTF-16BE");
    ThreeMarks("UTF-16LE");
    assert !Begins("UTF-8", input) && !Begins("UTF-16BE", input) && !Begins("UTF-16LE", input);
    if |input| >= 2 { assert input[..2] == [input[0], input[1]] <= input; }
    if |input| >= 3 { assert input[..3] == [input[0], input[1], input[2]] <= input; }
    assert input[0..] == input;
  }

  lemma DecodeWithoutSniffing<S>(codecs: Encoding -> Codec<S>, input: seq<nat>, fallback: Encoding)
    ensures Complete(false, codecs, input, fallback) == Whole(codecs(fallback), input)
  {
    assert input[0..] == input;
  }

  /** The same however the input is cut into pushes, even within its mark, and whenever the reactions run. */
  lemma RunMarked<S>(
    input: QueueState, fallback: Encoding, codecs: Encoding -> Codec<S>, events: seq<Event>,
    encoding: Encoding, rest: seq<nat>)
    requires input.Fair() && EndSeen(input.ended, events) && encoding in MARKED
    requires Arrived(true, input, events).0 == EncodedMark(encoding) + rest
    ensures EndsLike(After(Start(true, input, fallback, codecs), events + [Turn]),
                     Whole(codecs(encoding), rest), Arrived(true, input, events).1)
  {
    hide Whole, Complete, After, Start, EncodedMark, Arrived;
    SplitIndependent(true, input, fallback, codecs, events);
    DecodeMarked(codecs, encoding, rest, fallback);
  }

  lemma RunUnmarked<S>(
    input: QueueState, fallback: Encoding, codecs: Encoding -> Codec<S>, events: seq<Event>)
    requires input.Fair() && EndSeen(input.ended, events)
    requires forall encoding :: encoding in MARKED ==> !Begins(encoding, Arrived(true, input, events).0)
    ensures var (taken, late) := Arrived(true, input, events);
      EndsLike(After(Start(true, input, fallback, codecs), events + [Turn]), Whole(codecs(fallback), taken), late)
  {
    hide Whole, Complete, After, Start, Begins, Arrived;
    SplitIndependent(true, input, fallback, codecs, events);
    DecodeUnmarked(codecs, Arrived(true, input, events).0, fallback);
  }

  lemma RunWithoutSniffing<S>(
    input: QueueState, fallback: Encoding, codecs: Encoding -> Codec<S>, events: seq<Event>)
    requires input.Fair() && EndSeen(input.ended, events)
    ensures var (taken, late) := Arrived(false, input, events);
      EndsLike(After(Start(false, input, fallback, codecs), events + [Turn]), Whole(codecs(fallback), taken), late)
  {
    hide Whole, Complete, After, Start, Arrived;
    SplitIndependent(false, input, fallback, codecs, events);
    DecodeWithoutSniffing(codecs, Arrived(false, input, events).0, fallback);
  }

  /** From a producer that says nothing after the end, with nothing left over but what the codec leaves. */
  lemma OrderlyMarked<S>(
    input: QueueState, fallback: Encoding, codecs: Encoding -> Codec<S>, events: seq<Event>,
    encoding: Encoding, rest: seq<nat>)
    requires input.Fair() && EndSeen(input.ended, events) && Orderly(input.ended, events) && encoding in MARKED
    requires QueueProcessing.Joined(input.items, events) == EncodedMark(encoding) + rest
    ensures EndsLike(After(Start(true, input, fallback, codecs), events + [Turn]), Whole(codecs(encoding), rest), [])
  {
    hide Whole, Complete, After, Start, EncodedMark, Arrived, QueueProcessing.Joined;
    NothingLate(true, input, events);
    RunMarked(input, fallback, codecs, events, encoding, rest);
  }
}
