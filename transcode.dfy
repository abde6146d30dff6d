/** `convert_to_h264`: the name of the re-encoded file, the encoder command
    line, and how the call ends. Running the encoder and probing the file
    system are inputs. */
module Transcode {
  import opened Wrappers
  import opened Strings

  const Suffix := "_h264.mp4"
  const BundledEncoder := "/root/anaconda3/envs/gradio/bin/ffmpeg"

  /** `f"{base}_h264.mp4"` with `base, ext = os.path.splitext(video_path)`. */
  function H264Path(videoPath: string): string {
    SplitExt(videoPath).0 + Suffix
  }

  lemma {:induction false} LastIndexOfAppend(b: string, suffix: string, c: char)
    requires c !in suffix
    ensures LastIndexOf(b + suffix, c) == LastIndexOf(b, c)
  {
    var q := b + suffix;
    var r1, r2 := LastIndexOf(b, c), LastIndexOf(q, c);
    assert forall i :: |b| <= i < |q| ==> q[i] == suffix[i - |b|];
    if r1 >= 0 {
      assert q[r1] == b[r1];
    }
    if r2 >= 0 {
      assert q[r2] == b[r2];
    }
  }

  /** The new name keeps the old one's directory and stem, replaces its
      extension by `.mp4`, and splits back into that stem plus `_h264` and
      the extension `.mp4`. */
  lemma H264PathSplits(videoPath: string)
    ensures var out := H264Path(videoPath);
      && EndsWith(out, ".mp4")
      && SplitExt(out) == (SplitExt(videoPath).0 + "_h264", ".mp4")
  {
    var base := SplitExt(videoPath).0;
    var q := H264Path(videoPath);
    assert q == (base + "_h264") + ".mp4";
    assert q[|q| - 4..] == ".mp4";
    LastIndexOfAppend(base + "_h264", ".mp4", '/');
    LastIndexOfAppend(base, "_h264", '/');
    var sepIndex := LastIndexOf(q, '/');
    var dotIndex := LastIndexOf(q, '.');
    assert dotIndex == |base| + 5 by {
      assert q[|base| + 5] == '.';
      assert forall i :: |base| + 5 < i < |q| ==> q[i] == "mp4"[i - |base| - 6];
    }
    assert sepIndex < |base|;
    assert q[|base|] == '_';
    HasNonDotAt(q, sepIndex + 1, dotIndex, |base|);
    assert q[..dotIndex] == base + "_h264";
  }

  /** The re-encoded file never overwrites its source: splitting off an
      extension leaves nothing or a leading dot, and the suffix starts with `_`. */
  lemma H264PathDiffers(videoPath: string)
    ensures H264Path(videoPath) != videoPath
  {
    var base, ext := SplitExt(videoPath).0, SplitExt(videoPath).1;
    SplitExtParts(videoPath);
    var out := H264Path(videoPath);
    assert out[|base|] == '_';
    if |videoPath| > |base| {
      assert videoPath[|base|] == ext[0] == '.';
    }
  }

  /** The encoder to run: the bundled binary when it exists, else the one
      found on `PATH` (`shutil.which`), else none. */
  function Encoder(bundledExists: bool, onPath: Option<string>): (r: Option<string>)
    ensures bundledExists ==> r == Some(BundledEncoder)
    ensures !bundledExists ==> r == onPath
  {
    if bundledExists then Some(BundledEncoder) else onPath
  }

  /** The `ffmpeg` argument vector. */
  function Command(encoder: string, videoPath: string): (cmd: seq<string>)
    ensures |cmd| == 14 && cmd[0] == encoder && cmd[1] == "-i" && cmd[2] == videoPath
    ensures cmd[13] == H264Path(videoPath) && cmd[13] != cmd[2]
  {
    H264PathDiffers(videoPath);
    [encoder, "-i", videoPath, "-c:v", "libx264", "-preset", "slow", "-crf", "23",
     "-c:a", "aac", "-movflags", "+faststart", H264Path(videoPath)]
  }

  datatype Conversion =
    | Converted(path: string)
    | NoEncoder              // RuntimeError: ffmpeg is neither bundled nor on PATH
    | EncoderFailed          // CalledProcessError from `check=True`
    | OutputMissing(path: string)  // FileNotFoundError: the encoder left no file

  /** How `convert_to_h264` ends, given what the environment reports: whether
      the bundled encoder exists, what `PATH` yields, whether the encoder
      exits successfully, and whether the output file then exists. */
  function Convert(videoPath: string, bundledExists: bool, onPath: Option<string>,
                   encoderSucceeds: bool, outputExists: bool): (r: Conversion)
    ensures r == NoEncoder <==> !bundledExists && onPath.None?
    ensures r == EncoderFailed <==> (bundledExists || onPath.Some?) && !encoderSucceeds
    ensures r.OutputMissing? <==> (bundledExists || onPath.Some?) && encoderSucceeds && !outputExists
    ensures r.Converted? <==> (bundledExists || onPath.Some?) && encoderSucceeds && outputExists
    ensures r.Converted? ==> r.path == H264Path(videoPath)
    ensures r.OutputMissing? ==> r.path == H264Path(videoPath)
  {
    var out := H264Path(videoPath);
    match Encoder(bundledExists, onPath)
    case None => NoEncoder
    case Some(_) =>
      if !encoderSucceeds then EncoderFailed
      else if !outputExists then OutputMissing(out)
      else Converted(out)
  }
}
