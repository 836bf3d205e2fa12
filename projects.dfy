/**
 * The Projects section (src/components/Projects.tsx): the academic project
 * cards and a single slot naming the project whose detail modal is open.
 */
module Projects {
  import opened Results

  /** The id of the section element. */
  const SectionId := "projects"

  datatype AcademicProject = AcademicProject(
    id: string, title: string, shortDescription: string, description: string,
    features: seq<string>, github: string, report: string)

  const AcademicProjects: seq<AcademicProject> := [
    AcademicProject("agriculture", "Multipurpose Agriculture Machine",
      "IoT-enabled agricultural vehicle with multiple functions",
      "Engineered an IoT-enabled Multipurpose Agricultural Vehicle equipped with ploughing, seed sowing, watering, grass cutting, camera monitoring, and buzzer systems, seamlessly controlled via a website to enhance farming automation and efficiency.",
      ["IoT-enabled remote control", "Multi-functional agricultural operations",
       "Real-time camera monitoring", "Web-based control interface"],
      "", "/projects/agriculture.pdf"),
    AcademicProject("petcare", "Pet Care System",
      "Remote monitoring system for pet owners",
      "The system allows for remote control and monitoring through a web-based dashboard, providing convenience and peace of mind for pet owners.",
      ["Automated feeding system", "Remote monitoring", "Web-based dashboard", "Real-time alerts"],
      "https://github.com/Sreeharips1/petfeeder_miniproject.git", "")
  ]

  /** The project ids, which React uses as the cards' keys, are pairwise distinct. */
  lemma ProjectIdsDistinct()
    ensures forall i, j | 0 <= i < j < |AcademicProjects| :: AcademicProjects[i].id != AcademicProjects[j].id
  {
    assert AcademicProjects[0].id[0] != AcademicProjects[1].id[0];
  }

  /** A card shows its View Code link exactly when its github string is not empty. */
  predicate ShowsViewCode(p: AcademicProject) {
    p.github != ""
  }

  /** Only the pet care card links to code. */
  lemma ViewCodeCards()
    ensures !ShowsViewCode(AcademicProjects[0]) && ShowsViewCode(AcademicProjects[1])
  {
  }

  /** The two detail modals the section can render. */
  datatype Modal = AgricultureModal | PetFeederModal

  /** The modal each id opens, if any. */
  function ModalFor(id: string): (m: Option<Modal>)
    ensures m == Some(AgricultureModal) <==> id == "agriculture"
    ensures m == Some(PetFeederModal) <==> id == "petcare"
  {
    if id == "agriculture" then Some(AgricultureModal)
    else if id == "petcare" then Some(PetFeederModal)
    else None
  }

  function OptionToSet(m: Option<Modal>): set<Modal> {
    match m
    case Some(x) => {x}
    case None => {}
  }

  /** The modals rendered for a slot: each one whose condition tests the slot against its own id. */
  function RenderedModals(activeProject: Option<string>): set<Modal>
  {
    (if activeProject == Some("agriculture") then {AgricultureModal} else {})
    + (if activeProject == Some("petcare") then {PetFeederModal} else {})
  }

  /** At most one modal renders, and it is the one the slot's id opens. */
  lemma AtMostOneModal(activeProject: Option<string>)
    ensures |RenderedModals(activeProject)| <= 1
    ensures activeProject.None? ==> RenderedModals(activeProject) == {}
    ensures activeProject.Some? ==>
      RenderedModals(activeProject) == OptionToSet(ModalFor(activeProject.value))
  {
    if activeProject == Some("agriculture") {
      assert activeProject != Some("petcare") by {
        assert "agriculture"[0] != "petcare"[0];
      }
    }
  }

  /** Read More on any academic card opens that card's modal and no other. */
  lemma ReadMoreOpensItsModal(i: nat)
    requires i < |AcademicProjects|
    ensures |RenderedModals(Some(AcademicProjects[i].id))| == 1
  {
    AtMostOneModal(Some(AcademicProjects[i].id));
  }

  class ProjectsSection {
    /** The id of the project whose modal is open; None when none is. */
    var activeProject: Option<string>

    constructor ()
      ensures activeProject == None
    {
      activeProject := None;
    }

    /** Read More: the slot holds this project's id, whatever it held before. */
    method HandleProjectClick(projectId: string)
      modifies this
      ensures activeProject == Some(projectId)
    {
      activeProject := Some(projectId);
    }

    /** A modal's close action empties the slot. */
    method HandleCloseProject()
      modifies this
      ensures activeProject == None
    {
      activeProject := None;
    }

    function Modals(): (m: set<Modal>)
      reads this
      ensures |m| <= 1
      ensures activeProject == None ==> m == {}
    {
      AtMostOneModal(activeProject);
      RenderedModals(activeProject)
    }
  }

  /** Closing twice leaves the section as closing once does. */
  method CloseTwice(section: ProjectsSection)
    modifies section
    ensures section.activeProject == None
    ensures section.Modals() == {}
  {
    section.HandleCloseProject();
    section.HandleCloseProject();
  }
}
