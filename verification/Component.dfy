/** The value types of a versioned component: what its spec asks for, what its status records,
    and the key under which a pipeline archive is counted. */
module Component {

  datatype Option<+T> = None | Some(value: T)

  /** All strings.EqualFold needs here: the only strings folded against are "active" and
      "inactive", and no letter outside ASCII folds to one of theirs. */
  function FoldCase(c: char): char {
    if 'A' <= c <= 'Z' then (c as int + 32) as char else c
  }

  predicate EqualFold(s: string, t: string) {
    |s| == |t| && forall i :: 0 <= i < |s| ==> FoldCase(s[i]) == FoldCase(t[i])
  }

  const STATE_ACTIVE := "active"
  const STATE_INACTIVE := "inactive"
  const STATE_ERROR := "error"

  const ASSET_ACTIVE := "active"
  const ASSET_FAILED := "failed"
  const ASSET_UNKNOWN := "unknown"

  datatype GitRelease = GitRelease(hostname: string, organization: string, project: string, release: string,
                                   assetName: string)
  {
    predicate IsUsable() {
      hostname != "" && organization != "" && project != "" && release != "" && assetName != ""
    }
  }

  const NO_RELEASE := GitRelease("", "", "", "", "")

  /** A release as a spec names it: the same five fields and a certificate flag. */
  datatype GitReleaseSpec = GitReleaseSpec(info: GitRelease, skipCertVerification: bool)

  datatype PipelineSpec = PipelineSpec(id: string, sha256: string, url: string, skipCertVerification: bool,
                                       gitRelease: GitReleaseSpec)

  /** One cluster object a pipeline archive asks for, and how far the operator got with it. */
  datatype AssetStatus = AssetStatus(name: string, namespace: string, group: string, version: string, kind: string,
                                     digest: string, status: string, message: string)

  datatype PipelineStatus = PipelineStatus(name: string, url: string, gitRelease: GitRelease, digest: string,
                                           activeAssets: seq<AssetStatus>)

  datatype Image = Image(id: string, image: string)

  datatype StackVersion = StackVersion(version: string, desiredState: string, pipelines: seq<PipelineSpec>,
                                       images: seq<Image>, skipCertVerification: bool,
                                       skipRegistryCertVerification: bool, devfile: string, metafile: string)
  {
    predicate IsInactive() {
      EqualFold(desiredState, STATE_INACTIVE)
    }

    /** Only an active version asks for pipelines. */
    function GetPipelines(): seq<PipelineSpec> {
      if IsInactive() then [] else pipelines
    }
  }

  /** One version of a component as the activation engine sees it: a stack version, or the single
      version "gitops" of a Kabanero instance. */
  datatype SpecVersion = SpecVersion(version: string, pipelines: seq<PipelineSpec>)
  datatype StatusVersion = StatusVersion(version: string, pipelines: seq<PipelineStatus>)

  /** The key of the use count map: a usable release, or else a URL, with the archive digest. */
  datatype UseKey = UseKey(url: string, gitRelease: GitRelease, digest: string)

  function MakeKey(url: string, gitRelease: GitRelease, digest: string): UseKey {
    if gitRelease.IsUsable() then UseKey("", gitRelease, digest) else UseKey(url, NO_RELEASE, digest)
  }

  function KeyOfSpec(p: PipelineSpec): UseKey {
    MakeKey(p.url, p.gitRelease.info, p.sha256)
  }

  function KeyOfStatus(p: PipelineStatus): UseKey {
    MakeKey(p.url, p.gitRelease, p.digest)
  }
}
