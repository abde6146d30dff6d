/** SegmentEncoder: frames, video segments and `create_video_segment`. */
module SegmentEncoder {

  /** A raster dimension; a decoded image is never empty. */
  type Dim = n: nat | n > 0 witness 1

  /** A decoded frame: `frame.shape[:2]` is (height, width); the pixels are opaque. */
  datatype Frame = Frame(height: Dim, width: Dim, pixels: seq<int>)

  /** One finished video file: its frames in write order, its frame rate and
      the raster size it was opened with. Its random file name is not modelled. */
  datatype Segment = Segment(frames: seq<Frame>, fps: int, width: nat, height: nat)

  /** All frames of the segments, in emission order. */
  function Flatten(segments: seq<Segment>): seq<Frame> {
    if segments == [] then []
    else Flatten(segments[..|segments| - 1]) + segments[|segments| - 1].frames
  }

  lemma FlattenAppend(segments: seq<Segment>, s: Segment)
    ensures Flatten(segments + [s]) == Flatten(segments) + s.frames
  {
    assert (segments + [s])[..|segments|] == segments;
  }

  /** The part of `cv2.VideoWriter` the encoder uses: an open file that
      accepts frames until it is released. */
  class VideoWriter {
    const fps: int
    const width: nat
    const height: nat
    var written: seq<Frame>
    var released: bool

    constructor (fps: int, width: nat, height: nat)
      ensures this.fps == fps && this.width == width && this.height == height
      ensures written == [] && !released
    {
      this.fps, this.width, this.height := fps, width, height;
      written, released := [], false;
    }

    /** `out.write(frame)`: appends to an open file; a released writer ignores it. */
    method Write(f: Frame)
      modifies this
      ensures released == old(released)
      ensures written == if old(released) then old(written) else old(written) + [f]
    {
      if !released {
        written := written + [f];
      }
    }

    /** `out.release()`: finalises the file; nothing more can be written. */
    method Release()
      modifies this
      ensures released && written == old(written)
    {
      released := true;
    }
  }

  /** `create_video_segment`: opens a writer at the given rate and size,
      writes every frame in order, releases the file and only then hands it
      back, so a returned segment is always complete. */
  method CreateVideoSegment(frames: seq<Frame>, fps: int, width: nat, height: nat) returns (seg: Segment)
    ensures seg.frames == frames
    ensures seg.fps == fps && seg.width == width && seg.height == height
  {
    var out := new VideoWriter(fps, width, height);
    for i := 0 to |frames|
      invariant out.written == frames[..i] && !out.released
      invariant out.fps == fps && out.width == width && out.height == height
    {
      out.Write(frames[i]);
    }
    out.Release();
    seg := Segment(out.written, out.fps, out.width, out.height);
  }
}
