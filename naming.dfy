/** The file name save_generated writes the Terraform to. */
module Naming {
  import opened Text

  /** `[a-zA-Z0-9_\-]`: the characters kept in a file name. */
  predicate IsSafeChar(c: char) {
    ('a' <= c <= 'z') || ('A' <= c <= 'Z') || ('0' <= c <= '9') || c == '_' || c == '-'
  }

  predicate AllSafe(s: string) {
    forall i :: 0 <= i < |s| ==> IsSafeChar(s[i])
  }

  /** The end of the run of unsafe characters starting at index 0. */
  function UnsafeRunEnd(s: string): (k: nat)
    requires s != [] && !IsSafeChar(s[0])
    ensures 1 <= k <= |s| && (k == |s| || IsSafeChar(s[k]))
    ensures forall i :: 0 <= i < k ==> !IsSafeChar(s[i])
  {
    if |s| == 1 || IsSafeChar(s[1]) then 1 else 1 + UnsafeRunEnd(s[1..])
  }

  /** `re.sub(r"[^a-zA-Z0-9_\-]+", "_", s)`: each maximal run of other
      characters becomes one underscore. */
  function Sanitize(s: string): (r: string)
    ensures AllSafe(r) && |r| <= |s|
    ensures r == [] <==> s == []
    decreases |s|
  {
    if s == [] then []
    else if IsSafeChar(s[0]) then [s[0]] + Sanitize(s[1..])
    else "_" + Sanitize(s[UnsafeRunEnd(s)..])
  }

  /** The substitution changes a name exactly when it holds an unsafe character. */
  lemma {:induction false} SanitizeIdleIff(s: string)
    ensures Sanitize(s) == s <==> AllSafe(s)
    decreases |s|
  {
    if s != [] {
      if IsSafeChar(s[0]) {
        SanitizeIdleIff(s[1..]);
        assert AllSafe(s) <==> AllSafe(s[1..]);
        assert Sanitize(s) == s <==> Sanitize(s[1..]) == s[1..];
      } else {
        assert !AllSafe(s);
        assert Sanitize(s)[0] == '_' && s[0] != '_';
      }
    }
  }

  /** The value the name is built from: `name`, else `display_name`, else
      "resource", skipping empty values. */
  function NameSource(values: map<string, string>): (n: string)
    ensures n != []
    ensures "name" in values && values["name"] != "" ==> n == values["name"]
    ensures (!("name" in values && values["name"] != "") && "display_name" in values
             && values["display_name"] != "") ==> n == values["display_name"]
  {
    if "name" in values && values["name"] != "" then values["name"]
    else if "display_name" in values && values["display_name"] != "" then values["display_name"]
    else "resource"
  }

  /** The sanitized name cut to its first 64 characters. */
  function SafeName(values: map<string, string>): (r: string)
    ensures 1 <= |r| <= 64 && AllSafe(r)
    ensures |r| <= |Sanitize(NameSource(values))| && r == Sanitize(NameSource(values))[..|r|]
    ensures |Sanitize(NameSource(values))| >= 64 ==> |r| == 64
    ensures |r| == if |Sanitize(NameSource(values))| < 64 then |Sanitize(NameSource(values))| else 64
  {
    var s := Sanitize(NameSource(values));
    if |s| <= 64 then s else s[..64]
  }

  /** Sanitizing a safe name again changes nothing. */
  lemma SafeNameStable(values: map<string, string>)
    ensures Sanitize(SafeName(values)) == SafeName(values)
  {
    SanitizeIdleIff(SafeName(values));
  }

  /** `terraform_{resource_name}_{safe_name}.tf`, inside the output directory.
      The resource name and the safe name can be read back from the file name. */
  function OutputFileName(resourceName: string, values: map<string, string>): (f: string)
    ensures StartsWith(f, "terraform_") && EndsWith(f, ".tf")
    ensures |f| == 14 + |resourceName| + |SafeName(values)|
    ensures f[10..10 + |resourceName|] == resourceName
    ensures f[11 + |resourceName|..|f| - 3] == SafeName(values)
  {
    var safe := SafeName(values);
    FiveParts("terraform_", resourceName, "_", safe, ".tf");
    "terraform_" + resourceName + "_" + safe + ".tf"
  }

  /** Each part of a five-part concatenation sits where its length says. */
  lemma FiveParts(a: string, r: string, b: string, s: string, c: string)
    ensures var f := a + r + b + s + c;
            && |f| == |a| + |r| + |b| + |s| + |c|
            && f[0..|a|] == a && f[|a|..|a| + |r|] == r
            && f[|a| + |r| + |b|..|f| - |c|] == s && f[|f| - |c|..] == c
  {
    var f := a + r + b + s + c;
    assert f[|a| + |r| + |b|..|f| - |c|] == s by {
      forall k | 0 <= k < |s| ensures f[|a| + |r| + |b| + k] == s[k] {}
    }
  }

  /** One resource name and two different safe names never share a file. */
  lemma OutputFileNamesDiffer(resourceName: string, v1: map<string, string>, v2: map<string, string>)
    requires SafeName(v1) != SafeName(v2)
    ensures OutputFileName(resourceName, v1) != OutputFileName(resourceName, v2)
  {
  }
}
