/**
  The Go converter (`main.go`): `writeTGARLE`, which reorders the image and
  only then checks its dimensions, and the rule `main` uses to name the
  output file when none is given.
 */
module GoConverter {
  import opened Wrappers
  import opened Bytes
  import opened Tga
  import Encoder

  /**
    `writeTGARLE`: builds the BGRA bottom-left buffer, refuses a width or
    height above 65535, then writes the header and the packet stream. The
    result is the byte stream written, or the error returned.
   */
  method WriteTgaRle(rgba: array<byte>, width: nat, height: nat) returns (r: Result<seq<byte>, TgaError>)
    requires rgba.Length == width * height * 4
    ensures r == Convert(rgba[..], width, height)
  {
    var pixels := Encoder.MakeBgraBottomLeft(rgba, width, height);
    if width > MaxDimension || height > MaxDimension {
      return Failure(DimensionTooLarge);
    }
    var out := Header(width as u16, height as u16);
    var body := Encoder.WritePackets(pixels[..]);
    out := out + body;
    return Success(out);
  }

  // ---------------------------------------------------------------------------
  // Output path

  /** Why `main` refuses to derive an output path. */
  datatype PathError = InputNotPng

  /** `strings.HasSuffix`: `s` is some string followed by `suffix`. */
  predicate HasSuffix(s: string, suffix: string)
    ensures HasSuffix(s, suffix) <==> exists t :: s == t + suffix
  {
    if |suffix| <= |s| && s[|s| - |suffix|..] == suffix then
      assert s == s[..|s| - |suffix|] + suffix;
      true
    else
      false
  }

  /** `strings.TrimSuffix`: drops `suffix` when `s` ends with it, otherwise returns `s`. */
  function TrimSuffix(s: string, suffix: string): (t: string)
    ensures HasSuffix(s, suffix) ==> t + suffix == s
    ensures !HasSuffix(s, suffix) ==> t == s
  {
    if HasSuffix(s, suffix) then s[..|s| - |suffix|] else s
  }

  /**
    The output path `main` writes to: the second argument when given;
    otherwise the input path with its `.png` suffix replaced by `.tga`, and
    an error when the input does not end in `.png`.
   */
  function OutputPath(input: string, output: Option<string>): (r: Result<string, PathError>)
    ensures output.Some? ==> r == Success(output.value)
    ensures r.Failure? <==> output.None? && !HasSuffix(input, ".png")
    ensures output.None? && r.Success? ==>
      HasSuffix(r.value, ".tga") && TrimSuffix(r.value, ".tga") + ".png" == input
  {
    match output
    case Some(path) => Success(path)
    case None =>
      if HasSuffix(input, ".png") then
        Success(TrimSuffix(input, ".png") + ".tga")
      else
        Failure(InputNotPng)
  }
}
