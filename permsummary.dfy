/**
 * `_summarize_permissions` of core/views.py: the permissions of a group or a
 * user, filed by action (view, add, change, delete, other) into sections of
 * sorted, duplicate-free model labels.
 */
module PermissionSummary {
  import opened Text
  import opened Sorting

  /**
   * A permission as the summary reads it: its codename and the label of its
   * model (the capitalised verbose name, or the content type's model name
   * with underscores as spaces when the model class is gone).
   */
  datatype Permission = Permission(codename: string, modelLabel: string)

  datatype Bucket = ViewBucket | AddBucket | ChangeBucket | DeleteBucket | OtherBucket

  /** The order the sections come out in. */
  const BucketOrder: seq<Bucket> := [ViewBucket, AddBucket, ChangeBucket, DeleteBucket, OtherBucket]

  function BucketIndex(b: Bucket): (r: nat)
    ensures r < |BucketOrder| && BucketOrder[r] == b
  {
    match b
    case ViewBucket => 0
    case AddBucket => 1
    case ChangeBucket => 2
    case DeleteBucket => 3
    case OtherBucket => 4
  }

  function BucketKey(b: Bucket): string {
    match b
    case ViewBucket => "view"
    case AddBucket => "add"
    case ChangeBucket => "change"
    case DeleteBucket => "delete"
    case OtherBucket => "other"
  }

  function BucketLabel(b: Bucket): string {
    match b
    case ViewBucket => "View"
    case AddBucket => "Add"
    case ChangeBucket => "Change"
    case DeleteBucket => "Delete"
    case OtherBucket => "Other"
  }

  /** The first action among view, add, change, delete whose "<action>_" prefix starts the codename; other when none does. */
  function ActionBucket(codename: string): (r: Bucket)
    ensures r != OtherBucket ==> StartsWith(codename, BucketKey(r) + "_")
    ensures forall b :: BucketIndex(b) < BucketIndex(r) ==> !StartsWith(codename, BucketKey(b) + "_")
  {
    if StartsWith(codename, BucketKey(ViewBucket) + "_") then ViewBucket
    else if StartsWith(codename, BucketKey(AddBucket) + "_") then AddBucket
    else if StartsWith(codename, BucketKey(ChangeBucket) + "_") then ChangeBucket
    else if StartsWith(codename, BucketKey(DeleteBucket) + "_") then DeleteBucket
    else OtherBucket
  }

  /** The labels of the models with a permission filed under `b`. */
  function BucketModels(perms: seq<Permission>, b: Bucket): set<string> {
    set p | p in perms && ActionBucket(p.codename) == b :: p.modelLabel
  }

  lemma BucketModelsSnoc(perms: seq<Permission>, p: Permission, b: Bucket)
    ensures BucketModels(perms + [p], b)
      == BucketModels(perms, b) + (if ActionBucket(p.codename) == b then {p.modelLabel} else {})
  {
    var all := perms + [p];
    assert forall q :: q in all <==> q in perms || q == p;
  }

  datatype Section = Section(bucket: Bucket, key: string, title: string, models: seq<string>)

  /** A section carries its bucket's key and label and exactly that bucket's model labels, sorted and without repeats. */
  ghost predicate SectionOf(perms: seq<Permission>, s: Section) {
    s.key == BucketKey(s.bucket) && s.title == BucketLabel(s.bucket)
    && StrictlyIncreasing(s.models)
    && forall m :: m in s.models <==> m in BucketModels(perms, s.bucket)
  }

  /** The first loop: every bucket, holding the labels of the models with a permission filed under it. */
  method FilePermissions(perms: seq<Permission>) returns (buckets: map<Bucket, set<string>>)
    ensures forall b :: b in buckets && buckets[b] == BucketModels(perms, b)
  {
    buckets := map b | b in BucketOrder :: {};
    forall b
      ensures b in buckets && buckets[b] == BucketModels(perms[..0], b)
    {
      assert BucketOrder[BucketIndex(b)] == b;
    }
    var i := 0;
    while i < |perms|
      invariant 0 <= i <= |perms|
      invariant forall b :: b in buckets && buckets[b] == BucketModels(perms[..i], b)
    {
      var p := perms[i];
      var key := ActionBucket(p.codename);
      assert perms[..i + 1] == perms[..i] + [p];
      forall b
        ensures BucketModels(perms[..i + 1], b)
          == BucketModels(perms[..i], b) + (if key == b then {p.modelLabel} else {})
      {
        BucketModelsSnoc(perms[..i], p, b);
      }
      buckets := buckets[key := buckets[key] + {p.modelLabel}];
      i := i + 1;
    }
    assert perms[..i] == perms;
  }

  ghost predicate HasSection(sections: seq<Section>, b: Bucket) {
    exists j :: 0 <= j < |sections| && sections[j].bucket == b
  }

  lemma HasSectionSnoc(sections: seq<Section>, s: Section)
    ensures forall c :: HasSection(sections + [s], c) <==> HasSection(sections, c) || c == s.bucket
  {
    var next := sections + [s];
    forall c
      ensures HasSection(next, c) <==> HasSection(sections, c) || c == s.bucket
    {
      if HasSection(next, c) {
        var j :| 0 <= j < |next| && next[j].bucket == c;
        if j < |sections| {
          assert sections[j].bucket == c;
        }
      }
      if HasSection(sections, c) {
        var j :| 0 <= j < |sections| && sections[j].bucket == c;
        assert next[j].bucket == c;
      }
      if c == s.bucket {
        assert next[|sections|].bucket == c;
      }
    }
  }

  /** The summary loop after the first `k` buckets: sections in bucket order, each correct, one per non-empty bucket. */
  ghost predicate SummaryUpTo(perms: seq<Permission>, sections: seq<Section>, k: nat) {
    (forall j :: 0 <= j < |sections| ==> BucketIndex(sections[j].bucket) < k && SectionOf(perms, sections[j]))
    && (forall i, j :: 0 <= i < j < |sections| ==> BucketIndex(sections[i].bucket) < BucketIndex(sections[j].bucket))
    && (forall b :: BucketIndex(b) < k ==> (HasSection(sections, b) <==> BucketModels(perms, b) != {}))
  }

  /** A bucket with models adds its section at the end. */
  lemma SummaryKeep(perms: seq<Permission>, sections: seq<Section>, k: nat, models: seq<string>)
    requires k < |BucketOrder| && SummaryUpTo(perms, sections, k)
    requires StrictlyIncreasing(models) && models != []
    requires forall x :: x in models <==> x in BucketModels(perms, BucketOrder[k])
    ensures SummaryUpTo(perms, sections + [Section(BucketOrder[k], BucketKey(BucketOrder[k]), BucketLabel(BucketOrder[k]), models)], k + 1)
  {
    var b := BucketOrder[k];
    assert BucketIndex(b) == k;
    assert forall c :: BucketIndex(c) == k ==> c == b;
    assert models[0] in BucketModels(perms, b);
    HasSectionSnoc(sections, Section(b, BucketKey(b), BucketLabel(b), models));
  }

  /** A bucket without models adds nothing. */
  lemma SummarySkip(perms: seq<Permission>, sections: seq<Section>, k: nat)
    requires k < |BucketOrder| && SummaryUpTo(perms, sections, k)
    requires BucketModels(perms, BucketOrder[k]) == {}
    ensures SummaryUpTo(perms, sections, k + 1)
  {
    var b := BucketOrder[k];
    assert BucketIndex(b) == k;
    assert forall c :: BucketIndex(c) == k ==> c == b;
  }

  /** The sections in view, add, change, delete, other order, one per non-empty bucket. */
  method SummarizePermissions(perms: seq<Permission>) returns (sections: seq<Section>)
    ensures forall i, j :: 0 <= i < j < |sections| ==> BucketIndex(sections[i].bucket) < BucketIndex(sections[j].bucket)
    ensures forall b :: HasSection(sections, b) <==> BucketModels(perms, b) != {}
    ensures forall i :: 0 <= i < |sections| ==> SectionOf(perms, sections[i])
  {
    var buckets := FilePermissions(perms);
    sections := [];
    var k := 0;
    while k < |BucketOrder|
      invariant 0 <= k <= |BucketOrder|
      invariant SummaryUpTo(perms, sections, k)
    {
      var b := BucketOrder[k];
      var models := SortedStrings(buckets[b]);
      if models != [] {
        SummaryKeep(perms, sections, k, models);
        sections := sections + [Section(b, BucketKey(b), BucketLabel(b), models)];
      } else {
        SummarySkip(perms, sections, k);
      }
      k := k + 1;
    }
    assert forall c :: BucketIndex(c) < |BucketOrder|;
  }
}
