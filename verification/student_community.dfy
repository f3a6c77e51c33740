/** The student directory of `StudentCommunity`: the in-memory list of
    profiles, the "Add Profile" handler, the display list rebuilt from the
    profiles, and the "Connect with Students" query by current country. */
module Community {
  import opened Seqs
  import opened Text

  datatype StudentProfile = StudentProfile(name: string, email: string, originCountry: string, currentCountry: string)

  /** `StudentProfile.toString`, the line the display list shows. */
  function ProfileText(p: StudentProfile): string
  {
    "Name: " + p.name + ", Email: " + p.email + ", Origin Country: " + p.originCountry +
    ", Current Country: " + p.currentCountry
  }

  /** A field as the add handler stores it: trimmed and not empty. */
  predicate IsStoredField(f: string)
  {
    f != [] && Trim(f) == f
  }

  predicate IsStoredProfile(p: StudentProfile)
  {
    IsStoredField(p.name) && IsStoredField(p.email) && IsStoredField(p.originCountry) && IsStoredField(p.currentCountry)
  }

  predicate AllStored(profiles: seq<StudentProfile>)
  {
    forall i :: 0 <= i < |profiles| ==> IsStoredProfile(profiles[i])
  }

  /** The fields of a profile the add handler accepts are stored as it trims them. */
  lemma TrimmedFieldsStored(name: string, email: string, originCountry: string, currentCountry: string)
    requires !IsBlank(name) && !IsBlank(email) && !IsBlank(originCountry) && !IsBlank(currentCountry)
    ensures IsStoredProfile(StudentProfile(Trim(name), Trim(email), Trim(originCountry), Trim(currentCountry)))
  {
    TrimIdempotent(name);
    TrimIdempotent(email);
    TrimIdempotent(originCountry);
    TrimIdempotent(currentCountry);
  }

  lemma AllStoredSnoc(profiles: seq<StudentProfile>, p: StudentProfile)
    requires AllStored(profiles) && IsStoredProfile(p)
    ensures AllStored(profiles + [p])
  {
  }

  /** `getCurrentCountry().equalsIgnoreCase(desiredCountry)`: the whole field, not a part of it. */
  predicate LivesIn(p: StudentProfile, country: string)
  {
    EqualsIgnoreCase(p.currentCountry, country)
  }

  function InCountry(country: string): StudentProfile -> bool
  {
    p => LivesIn(p, country)
  }

  /** What "Connect with Students" ends with: a prompt for the missing country,
      or the matching profiles (an empty list is shown as "No students found ..."). */
  datatype ConnectResult = MissingCountry | Students(matching: seq<StudentProfile>)

  class StudentCommunity {
    var studentProfiles: seq<StudentProfile>
    var profileListModel: seq<string>

    /** The display list shows every profile, in order, and every profile was
        stored by the add handler. */
    ghost predicate Valid()
      reads this
    {
      && |profileListModel| == |studentProfiles|
      && (forall i :: 0 <= i < |studentProfiles| ==> profileListModel[i] == ProfileText(studentProfiles[i]))
      && AllStored(studentProfiles)
    }

    constructor ()
      ensures Valid()
      ensures studentProfiles == [] && profileListModel == []
    {
      studentProfiles := [];
      profileListModel := [];
    }

    /** `updateProfileList`: clear the display list and add the text of every
        profile, in order. */
    method UpdateProfileList()
      modifies this`profileListModel
      ensures |profileListModel| == |studentProfiles|
      ensures forall i :: 0 <= i < |studentProfiles| ==> profileListModel[i] == ProfileText(studentProfiles[i])
    {
      profileListModel := [];
      var i := 0;
      while i < |studentProfiles|
        invariant 0 <= i <= |studentProfiles|
        invariant |profileListModel| == i
        invariant forall j :: 0 <= j < i ==> profileListModel[j] == ProfileText(studentProfiles[j])
      {
        profileListModel := profileListModel + [ProfileText(studentProfiles[i])];
        i := i + 1;
      }
    }

    /** The "Add Profile" handler: the four fields are trimmed; if any is then
        empty nothing changes; otherwise the profile is appended and the
        display list rebuilt.  There is no check of the e-mail address. */
    method AddProfile(name: string, email: string, originCountry: string, currentCountry: string)
      returns (added: bool)
      requires Valid()
      modifies this
      ensures Valid()
      ensures added <==> !IsBlank(name) && !IsBlank(email) && !IsBlank(originCountry) && !IsBlank(currentCountry)
      ensures added ==>
        studentProfiles == old(studentProfiles) + [StudentProfile(Trim(name), Trim(email), Trim(originCountry), Trim(currentCountry))]
      ensures !added ==> studentProfiles == old(studentProfiles) && profileListModel == old(profileListModel)
    {
      var n := Trim(name);
      var e := Trim(email);
      var o := Trim(originCountry);
      var c := Trim(currentCountry);
      if n == [] || e == [] || o == [] || c == [] {
        return false;
      }
      TrimmedFieldsStored(name, email, originCountry, currentCountry);
      AllStoredSnoc(studentProfiles, StudentProfile(n, e, o, c));
      studentProfiles := studentProfiles + [StudentProfile(n, e, o, c)];
      UpdateProfileList();
      added := true;
    }

    /** "Connect with Students": a blank desired country is rejected before any
        profile is looked at; otherwise the profiles whose current country
        equals the trimmed text, ignoring case, in list order.  The list of
        profiles is left as it was. */
    method Connect(desiredCountry: string) returns (r: ConnectResult)
      ensures r == MissingCountry <==> IsBlank(desiredCountry)
      ensures r.Students? ==> r.matching == Filter(studentProfiles, InCountry(Trim(desiredCountry)))
      ensures r.Students? ==>
        forall p :: p in r.matching <==> p in studentProfiles && LivesIn(p, Trim(desiredCountry))
      ensures r.Students? ==> IsSubsequence(r.matching, studentProfiles)
    {
      var country := Trim(desiredCountry);
      if country == [] {
        return MissingCountry;
      }
      var matchingProfiles: seq<StudentProfile> := [];
      var i := 0;
      while i < |studentProfiles|
        invariant 0 <= i <= |studentProfiles|
        invariant matchingProfiles == Filter(studentProfiles[..i], InCountry(country))
      {
        var profile := studentProfiles[i];
        if EqualsIgnoreCase(profile.currentCountry, country) {
          matchingProfiles := matchingProfiles + [profile];
        }
        assert studentProfiles[..i + 1] == studentProfiles[..i] + [profile];
        FilterSnoc(studentProfiles[..i], profile, InCountry(country));
        i := i + 1;
      }
      assert studentProfiles[..i] == studentProfiles;
      FilterMembers(studentProfiles, InCountry(country));
      FilterIsSubsequence(studentProfiles, InCountry(country));
      r := Students(matchingProfiles);
    }
  }

  /** The country match is on the whole field: a current country that only
      contains the desired one, or is longer than it, does not match. */
  lemma CountryMatchIsWhole(p: StudentProfile, country: string)
    requires LivesIn(p, country)
    ensures |p.currentCountry| == |country|
  {
    assert |Lower(p.currentCountry)| == |Lower(country)|;
  }

  /** Adding two profiles with the same e-mail address succeeds both times:
      the add handler checks neither uniqueness nor the shape of the address. */
  method AddSameEmailTwice(community: StudentCommunity, email: string,
                           name1: string, origin1: string, current1: string,
                           name2: string, origin2: string, current2: string)
    returns (added1: bool, added2: bool)
    requires community.Valid()
    requires !IsBlank(email)
    requires !IsBlank(name1) && !IsBlank(origin1) && !IsBlank(current1)
    requires !IsBlank(name2) && !IsBlank(origin2) && !IsBlank(current2)
    modifies community
    ensures community.Valid()
    ensures added1 && added2
    ensures |community.studentProfiles| == |old(community.studentProfiles)| + 2
    ensures community.studentProfiles[|community.studentProfiles| - 1].email == Trim(email)
    ensures community.studentProfiles[|community.studentProfiles| - 2].email == Trim(email)
  {
    added1 := community.AddProfile(name1, email, origin1, current1);
    added2 := community.AddProfile(name2, email, origin2, current2);
  }
}
