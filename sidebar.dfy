/** The profile-completion meter of the sidebar: the share of nine profile fields that are filled,
    as a rounded percentage. */
module Sidebar {
  import opened Wrappers
  import opened Sequences

  /** The fields of the signed-in user that the meter looks at. A missing string is None; a
      missing array (experience, education, skills) has length None. */
  datatype ProfileFields = ProfileFields(
    name: Option<string>,
    headline: Option<string>,
    location: Option<string>,
    about: Option<string>,
    experience: Option<nat>,
    education: Option<nat>,
    skills: Option<nat>,
    profilePicture: Option<string>,
    bannerImg: Option<string>)

  /** `Boolean(value)` for a string: present and non-empty. */
  predicate FilledText(s: Option<string>) {
    s.Some? && s.value != []
  }

  /** `Boolean(array?.length)`: the array is present and has an element. */
  predicate FilledList(n: Option<nat>) {
    n.Some? && n.value > 0
  }

  /** The truthiness of the nine fields, in the order the meter lists them. */
  function Flags(u: ProfileFields): (r: seq<bool>)
    ensures |r| == 9
  {
    [FilledText(u.name), FilledText(u.headline), FilledText(u.location), FilledText(u.about),
     FilledList(u.experience), FilledList(u.education), FilledList(u.skills),
     FilledText(u.profilePicture), FilledText(u.bannerImg)]
  }

  /** Every field the meter looks at is filled. */
  predicate AllFilled(u: ProfileFields) {
    && FilledText(u.name) && FilledText(u.headline) && FilledText(u.location) && FilledText(u.about)
    && FilledList(u.experience) && FilledList(u.education) && FilledList(u.skills)
    && FilledText(u.profilePicture) && FilledText(u.bannerImg)
  }

  /** No field the meter looks at is filled. */
  predicate NoneFilled(u: ProfileFields) {
    && !FilledText(u.name) && !FilledText(u.headline) && !FilledText(u.location) && !FilledText(u.about)
    && !FilledList(u.experience) && !FilledList(u.education) && !FilledList(u.skills)
    && !FilledText(u.profilePicture) && !FilledText(u.bannerImg)
  }

  /** `fields.filter(Boolean).length`. */
  function Filled(u: ProfileFields): (n: nat)
    ensures n <= 9
    ensures n == 0 <==> forall i :: 0 <= i < 9 ==> !Flags(u)[i]
  {
    Count(Flags(u), true)
  }

  /** `getProfileCompletion`: 0 without a user, otherwise `Math.round(filled / 9 * 100)`. The
      exact quotient 100 * filled / 9 never ends in .5, so rounding half up is computed on
      integers. */
  function Completion(user: Option<ProfileFields>): (r: nat)
    ensures r <= 100
    ensures user.None? ==> r == 0
    ensures user.Some? ==> -9 < 18 * r - 200 * Filled(user.value) <= 9
  {
    if user.None? then 0 else (200 * Filled(user.value) + 9) / 18
  }

  /** The meter reads 100 exactly when a user is signed in and all nine fields are filled. */
  lemma CompleteIffAllFilled(user: Option<ProfileFields>)
    ensures Completion(user) == 100 <==> user.Some? && AllFilled(user.value)
  {
    if user.Some? {
      var flags := Flags(user.value);
      CountAllTrue(flags);
      assert AllFilled(user.value) <==> forall i :: 0 <= i < 9 ==> flags[i] by {
        if !AllFilled(user.value) {
          assert !flags[0] || !flags[1] || !flags[2] || !flags[3] || !flags[4]
              || !flags[5] || !flags[6] || !flags[7] || !flags[8];
        }
      }
    }
  }

  /** The meter reads 0 exactly when no user is signed in or none of the fields is filled. */
  lemma EmptyIffNothingFilled(user: Option<ProfileFields>)
    ensures Completion(user) == 0 <==> user.None? || NoneFilled(user.value)
  {
    if user.Some? {
      var flags := Flags(user.value);
      assert NoneFilled(user.value) <==> forall i :: 0 <= i < 9 ==> !flags[i] by {
        if !NoneFilled(user.value) {
          assert flags[0] || flags[1] || flags[2] || flags[3] || flags[4]
              || flags[5] || flags[6] || flags[7] || flags[8];
        }
      }
    }
  }

  /** Filling in more fields never lowers the meter. */
  lemma CompletionMonotone(u: ProfileFields, v: ProfileFields)
    requires FilledText(u.name) ==> FilledText(v.name)
    requires FilledText(u.headline) ==> FilledText(v.headline)
    requires FilledText(u.location) ==> FilledText(v.location)
    requires FilledText(u.about) ==> FilledText(v.about)
    requires FilledList(u.experience) ==> FilledList(v.experience)
    requires FilledList(u.education) ==> FilledList(v.education)
    requires FilledList(u.skills) ==> FilledList(v.skills)
    requires FilledText(u.profilePicture) ==> FilledText(v.profilePicture)
    requires FilledText(u.bannerImg) ==> FilledText(v.bannerImg)
    ensures Completion(Some(u)) <= Completion(Some(v))
  {
    CountTrueMonotone(Flags(u), Flags(v));
  }

  /** Each field counts for one ninth: the filled count is at most the number of flags, and reaches
      it only when every flag is set. */
  lemma {:induction false} CountAllTrue(s: seq<bool>)
    ensures Count(s, true) == |s| <==> forall i :: 0 <= i < |s| ==> s[i]
    decreases |s|
  {
    if s != [] {
      var init := s[..|s| - 1];
      CountAllTrue(init);
      assert s == init + [s[|s| - 1]];
      assert Count(init, true) <= |init|;
      if Count(s, true) == |s| {
        assert s[|s| - 1] && Count(init, true) == |init|;
        assert forall i :: 0 <= i < |s| ==> s[i] by {
          forall i | 0 <= i < |s| ensures s[i] {
            if i < |init| { assert init[i]; }
          }
        }
      }
    }
  }

  lemma {:induction false} CountTrueMonotone(a: seq<bool>, b: seq<bool>)
    requires |a| == |b|
    requires forall i :: 0 <= i < |a| ==> a[i] ==> b[i]
    ensures Count(a, true) <= Count(b, true)
    decreases |a|
  {
    if a != [] {
      CountTrueMonotone(a[..|a| - 1], b[..|b| - 1]);
    }
  }
}
