/** The `cursor` module of src/lib.rs: an animation (the frames a config gives
    for one size) becomes an ANI file, one cursor image per frame.
    `generate_cur`, which opens and decodes the frame's PNG file, is a
    parameter: any function from a hotspot and an image path to a cursor
    image, or to the way the process stopped inside it. */
module Cursor {
  import opened Outcomes
  import opened Lexing
  import opened Config

  datatype AniHeader = AniHeader(numFrames: u32, numSteps: u32, width: u32, height: u32, frameRate: u32)

  datatype Ani<Icon> = Ani(header: AniHeader, frames: seq<Icon>)

  /** `prefix.join(image)`, kept as the pair it is built from */
  datatype ImagePath = ImagePath(prefix: string, image: string)

  /** `n as u32`: the low 32 bits */
  function AsU32(n: nat): (r: u32)
    ensures n < 0x1_0000_0000 ==> r == n
  {
    n % 0x1_0000_0000
  }

  /** The call `generate_ani` makes for one frame */
  function GenerateFrame<Icon>(ci: CursorInformation, prefix: string, generateCur: ((u16, u16), ImagePath) -> Run<Icon>): Run<Icon> {
    generateCur(ci.hotspot, ImagePath(prefix, ci.image))
  }

  /** `animation.iter().map(..).collect()`: the frames are generated in order,
      and the first call that does not return ends the process. */
  function GenerateFrames<Icon>(animation: seq<CursorInformation>, prefix: string,
                                generateCur: ((u16, u16), ImagePath) -> Run<Icon>): (r: Run<seq<Icon>>)
    ensures r.Returned? ==> |r.value| == |animation|
  {
    if animation == [] then Returned([])
    else
      var frames :- GenerateFrames(animation[..|animation| - 1], prefix, generateCur);
      var icon :- GenerateFrame(animation[|animation| - 1], prefix, generateCur);
      Returned(frames + [icon])
  }

  /** `generate_ani`: the frame rate is read from the first record, whose
      `unwrap` panics on an empty animation before any frame is generated;
      then the frames are generated and the header is filled in. */
  function GenerateAni<Icon>(size: u16, animation: seq<CursorInformation>, prefix: string,
                             generateCur: ((u16, u16), ImagePath) -> Run<Icon>): (r: Run<Ani<Icon>>)
    ensures animation == [] ==> r == Panicked
    ensures r.Returned? ==> animation != [] && |r.value.frames| == |animation|
    ensures r.Returned? ==> r.value.header.width == r.value.header.height == size
    ensures r.Returned? ==> r.value.header.frameRate == animation[0].delay
  {
    if animation == [] then Panicked
    else
      var frameRate := animation[0].delay;
      var frames :- GenerateFrames(animation, prefix, generateCur);
      Returned(Ani(AniHeader(AsU32(|animation|), AsU32(|animation|), size, size, frameRate), frames))
  }

  /** The frames are generated exactly when every call returns, and then the
      i-th frame is the i-th record's cursor image. */
  lemma {:induction false} GenerateFramesReturns<Icon>(animation: seq<CursorInformation>, prefix: string,
                                                       generateCur: ((u16, u16), ImagePath) -> Run<Icon>)
    ensures var r := GenerateFrames(animation, prefix, generateCur);
      && (r.Returned? <==> forall i :: 0 <= i < |animation| ==> GenerateFrame(animation[i], prefix, generateCur).Returned?)
      && (r.Returned? ==> forall i :: 0 <= i < |animation| ==> GenerateFrame(animation[i], prefix, generateCur) == Returned(r.value[i]))
  {
    if animation != [] {
      var prefixRecs := animation[..|animation| - 1];
      GenerateFramesReturns(prefixRecs, prefix, generateCur);
      assert forall i :: 0 <= i < |prefixRecs| ==> prefixRecs[i] == animation[i];
    }
  }

  /** The first frame whose call does not return decides how the process ends;
      the frames after it are never generated. */
  lemma {:induction false} GenerateFramesFirstFailure<Icon>(animation: seq<CursorInformation>, k: nat, prefix: string,
                                                            generateCur: ((u16, u16), ImagePath) -> Run<Icon>)
    requires k < |animation|
    requires forall i :: 0 <= i < k ==> GenerateFrame(animation[i], prefix, generateCur).Returned?
    requires !GenerateFrame(animation[k], prefix, generateCur).Returned?
    ensures GenerateFrames(animation, prefix, generateCur)
         == GenerateFrame(animation[k], prefix, generateCur).PropagateFailure<seq<Icon>>()
  {
    var prefixRecs := animation[..|animation| - 1];
    if k < |animation| - 1 {
      assert forall i :: 0 <= i < |prefixRecs| ==> prefixRecs[i] == animation[i];
      GenerateFramesFirstFailure(prefixRecs, k, prefix, generateCur);
    } else {
      GenerateFramesReturns(prefixRecs, prefix, generateCur);
      assert forall i :: 0 <= i < |prefixRecs| ==> prefixRecs[i] == animation[i];
    }
  }

  /** What a returned ANI holds: a header whose frame and step counts are the
      number of records (as `u32`), whose width and height are the size and
      whose frame rate is the first record's delay, and one frame per record,
      in order. */
  lemma GenerateAniReturns<Icon>(size: u16, animation: seq<CursorInformation>, prefix: string,
                                 generateCur: ((u16, u16), ImagePath) -> Run<Icon>)
    ensures var r := GenerateAni(size, animation, prefix, generateCur);
      && (r.Returned? <==>
            animation != [] && forall i :: 0 <= i < |animation| ==> GenerateFrame(animation[i], prefix, generateCur).Returned?)
      && (r.Returned? ==>
            && r.value.header.numFrames == r.value.header.numSteps == AsU32(|animation|)
            && (|animation| < 0x1_0000_0000 ==> r.value.header.numFrames == |animation|)
            && r.value.header.width == r.value.header.height == size
            && r.value.header.frameRate == animation[0].delay
            && |r.value.frames| == |animation|
            && forall i :: 0 <= i < |animation| ==> GenerateFrame(animation[i], prefix, generateCur) == Returned(r.value.frames[i]))
  {
    GenerateFramesReturns(animation, prefix, generateCur);
  }

  /** An empty animation panics, and no frame is generated. */
  lemma GenerateAniEmpty<Icon>(size: u16, prefix: string, generateCur: ((u16, u16), ImagePath) -> Run<Icon>)
    ensures GenerateAni(size, [], prefix, generateCur) == Panicked
  {
  }

  /** On a non-empty animation the process stops exactly as the first frame
      whose call does not return stops it. */
  lemma GenerateAniFirstFailure<Icon>(size: u16, animation: seq<CursorInformation>, k: nat, prefix: string,
                                      generateCur: ((u16, u16), ImagePath) -> Run<Icon>)
    requires k < |animation|
    requires forall i :: 0 <= i < k ==> GenerateFrame(animation[i], prefix, generateCur).Returned?
    requires !GenerateFrame(animation[k], prefix, generateCur).Returned?
    ensures GenerateAni(size, animation, prefix, generateCur)
         == GenerateFrame(animation[k], prefix, generateCur).PropagateFailure<Ani<Icon>>()
  {
    GenerateFramesFirstFailure(animation, k, prefix, generateCur);
  }

  /** Every frame list a successfully parsed config holds can be turned into an
      ANI without the empty-animation panic: the list is non-empty, every
      record in it is a frame of that size, and so the header's width and
      height agree with every frame's size. If the process still panics, some
      frame's `generate_cur` did. */
  lemma ConfigAnimationsArePlayable<Icon>(lines: seq<string>, groups: Groups, size: u16, frames: seq<CursorInformation>,
                                          prefix: string, generateCur: ((u16, u16), ImagePath) -> Run<Icon>)
    requires ParsedConfig(lines) == Returned(Ok(groups))
    requires Lookup(groups, size) == Some(Cursors(frames))
    ensures frames != []
    ensures forall i :: 0 <= i < |frames| ==> frames[i].isFrame && frames[i].size == size
    ensures var r := GenerateAni(size, frames, prefix, generateCur);
      && (r.Returned? ==> r.value.header.width == size && r.value.header.frameRate == frames[0].delay)
      && (r == Panicked ==> exists i :: 0 <= i < |frames| && GenerateFrame(frames[i], prefix, generateCur) == Panicked)
  {
    ParsedConfigGroups(lines, groups);
    ExpectedShape(Values(ParseAll(lines)), size);
    GenerateAniReturns(size, frames, prefix, generateCur);
    var r := GenerateAni(size, frames, prefix, generateCur);
    if r == Panicked {
      var k := FirstFailure(frames, prefix, generateCur);
      GenerateAniFirstFailure(size, frames, k, prefix, generateCur);
    }
  }

  /** The first frame whose call does not return, when there is one */
  lemma FirstFailure<Icon>(animation: seq<CursorInformation>, prefix: string,
                           generateCur: ((u16, u16), ImagePath) -> Run<Icon>) returns (k: nat)
    requires exists i :: 0 <= i < |animation| && !GenerateFrame(animation[i], prefix, generateCur).Returned?
    ensures k < |animation| && !GenerateFrame(animation[k], prefix, generateCur).Returned?
    ensures forall i :: 0 <= i < k ==> GenerateFrame(animation[i], prefix, generateCur).Returned?
  {
    k := 0;
    while GenerateFrame(animation[k], prefix, generateCur).Returned?
      invariant k < |animation|
      invariant forall i :: 0 <= i < k ==> GenerateFrame(animation[i], prefix, generateCur).Returned?
      invariant exists i :: k <= i < |animation| && !GenerateFrame(animation[i], prefix, generateCur).Returned?
      decreases |animation| - k
    {
      k := k + 1;
    }
  }
}
