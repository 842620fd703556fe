/**
 * `startMultipleTranscodings`: the three ffmpeg jobs launched for a finished
 * artifact, one per resolution profile, and the names of their outputs.
 * Launching the process and its completion callback are not modelled; a job
 * is the resolution, output path and command line the server would run.
 */
module Transcode {
  import opened PathNames

  datatype Profile = Profile(resolution: string, size: string)

  /** The fixed profile list, in the order the jobs are launched. */
  const Profiles: seq<Profile> := [
    Profile("480p", "854x480"),
    Profile("720p", "1280x720"),
    Profile("1080p", "1920x1080")
  ]

  /** Outputs go to `./transcoded`, which `path.join` writes as `transcoded/`. */
  const TranscodedDir: string := "transcoded/"

  datatype TranscodeJob = TranscodeJob(resolution: string, outputPath: string, command: string)

  /** `<base>_<resolution>.mp4`, where `<base>` is the input's final segment without its extension. */
  function OutputFileName(inputFile: string, resolution: string): string {
    Stem(inputFile) + "_" + resolution + ".mp4"
  }

  function Command(inputFile: string, size: string, outputPath: string): string {
    "ffmpeg -i " + inputFile + " -s " + size + " -r 30 -c:v libx264 -preset fast -crf 23 " + outputPath
  }

  function Job(inputFile: string, p: Profile): TranscodeJob {
    var outputPath := TranscodedDir + OutputFileName(inputFile, p.resolution);
    TranscodeJob(p.resolution, outputPath, Command(inputFile, p.size, outputPath))
  }

  /** One job per profile, in profile order. */
  function TranscodeJobs(inputFile: string): seq<TranscodeJob> {
    seq(|Profiles|, i requires 0 <= i < |Profiles| => Job(inputFile, Profiles[i]))
  }

  /** The three outputs of an artifact, in launch order. */
  lemma ThreeOutputsInOrder(inputFile: string)
    ensures |TranscodeJobs(inputFile)| == 3
    ensures TranscodeJobs(inputFile)[0].outputPath == "transcoded/" + Stem(inputFile) + "_480p.mp4"
    ensures TranscodeJobs(inputFile)[1].outputPath == "transcoded/" + Stem(inputFile) + "_720p.mp4"
    ensures TranscodeJobs(inputFile)[2].outputPath == "transcoded/" + Stem(inputFile) + "_1080p.mp4"
    ensures forall i :: 0 <= i < 3 ==> TranscodeJobs(inputFile)[i].resolution == Profiles[i].resolution
  {
    var jobs, stem := TranscodeJobs(inputFile), Stem(inputFile);
    assert jobs[0] == Job(inputFile, Profiles[0]);
    assert jobs[1] == Job(inputFile, Profiles[1]);
    assert jobs[2] == Job(inputFile, Profiles[2]);
    OutputPathsSpelledOut(stem);
  }

  lemma OutputPathsSpelledOut(stem: string)
    ensures TranscodedDir + (stem + "_" + "480p" + ".mp4") == "transcoded/" + stem + "_480p.mp4"
    ensures TranscodedDir + (stem + "_" + "720p" + ".mp4") == "transcoded/" + stem + "_720p.mp4"
    ensures TranscodedDir + (stem + "_" + "1080p" + ".mp4") == "transcoded/" + stem + "_1080p.mp4"
  {
  }

  predicate IsResolutionLabel(resolution: string) {
    resolution == "480p" || resolution == "720p" || resolution == "1080p"
  }

  lemma SplitAtSameLength<T>(a1: seq<T>, b1: seq<T>, a2: seq<T>, b2: seq<T>)
    requires a1 + b1 == a2 + b2 && |b1| == |b2|
    ensures a1 == a2 && b1 == b2
  {
    assert a1 == (a1 + b1)[..|a1|];
    assert a2 == (a2 + b2)[..|a2|];
    assert b1 == (a1 + b1)[|a1|..];
    assert b2 == (a2 + b2)[|a2|..];
  }

  /**
   * An output file is an `.mp4` whose stem is the artifact's stem, '_' and
   * the profile's resolution label: the two can be read back from the name.
   */
  lemma OutputFileNameParts(inputFile: string, resolution: string)
    requires IsResolutionLabel(resolution)
    ensures Extname(OutputFileName(inputFile, resolution)) == ".mp4"
    ensures Stem(OutputFileName(inputFile, resolution)) == Stem(inputFile) + "_" + resolution
  {
    LabelledNameParts(Stem(inputFile), resolution);
  }

  lemma LabelledNameParts(base: string, resolution: string)
    requires '/' !in base && IsResolutionLabel(resolution)
    ensures Extname(base + "_" + resolution + ".mp4") == ".mp4"
    ensures Stem(base + "_" + resolution + ".mp4") == base + "_" + resolution
  {
    var stem := base + "_" + resolution;
    LabelHasNoSlash(resolution);
    forall k | 0 <= k < |stem|
      ensures stem[k] != '/'
    {
      if k < |base| { assert stem[k] == base[k]; }
      else if k > |base| { assert stem[k] == resolution[k - |base| - 1]; }
    }
    assert '.' !in ".mp4"[1..];
    ExtnameOfParts(stem, ".mp4");
  }

  lemma LabelHasNoSlash(resolution: string)
    requires IsResolutionLabel(resolution)
    ensures forall k :: 0 <= k < |resolution| ==> resolution[k] != '/'
  {
  }

  /**
   * Different artifacts, or different profiles, never write the same output
   * file: the artifact's stem and the resolution are determined by the name.
   */
  lemma OutputFileNameInjective(input1: string, res1: string, input2: string, res2: string)
    requires IsResolutionLabel(res1) && IsResolutionLabel(res2)
    requires OutputFileName(input1, res1) == OutputFileName(input2, res2)
    ensures Stem(input1) == Stem(input2) && res1 == res2
  {
    OutputFileNameParts(input1, res1);
    OutputFileNameParts(input2, res2);
    StemAndLabelDetermined(Stem(input1), res1, Stem(input2), res2);
  }

  /** `<stem>_<resolution>` determines its stem and resolution label. */
  lemma StemAndLabelDetermined(stem1: string, res1: string, stem2: string, res2: string)
    requires IsResolutionLabel(res1) && IsResolutionLabel(res2)
    requires stem1 + "_" + res1 == stem2 + "_" + res2
    ensures stem1 == stem2 && res1 == res2
  {
    var x, y := stem1 + "_" + res1, stem2 + "_" + res2;
    assert x[|x| - 5] == (if |res1| == 4 then '_' else '1');
    assert y[|y| - 5] == (if |res2| == 4 then '_' else '1');
    SplitAtSameLength(stem1 + "_", res1, stem2 + "_", res2);
    SplitAtSameLength(stem1, "_", stem2, "_");
  }

  /** The jobs of one artifact write three different files. */
  lemma OutputPathsDistinct(inputFile: string)
    ensures forall i, j :: 0 <= i < j < |TranscodeJobs(inputFile)| ==>
      TranscodeJobs(inputFile)[i].outputPath != TranscodeJobs(inputFile)[j].outputPath
  {
    ThreeOutputsInOrder(inputFile);
    LabelsTellPathsApart("transcoded/" + Stem(inputFile));
  }

  /** The three spelled-out output paths differ at the first character of their labels. */
  lemma LabelsTellPathsApart(prefix: string)
    ensures prefix + "_480p.mp4" != prefix + "_720p.mp4"
    ensures prefix + "_480p.mp4" != prefix + "_1080p.mp4"
    ensures prefix + "_720p.mp4" != prefix + "_1080p.mp4"
  {
    var k := |prefix| + 1;
    assert (prefix + "_480p.mp4")[k] == '4';
    assert (prefix + "_720p.mp4")[k] == '7';
    assert (prefix + "_1080p.mp4")[k] == '1';
  }
}
