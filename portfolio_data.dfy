/**
 * The records the sections read from the static content dataset, with only the fields the
 * modelled rules use, and the dataset the site ships with.
 */
module PortfolioData {
  import opened Wrappers

  datatype PersonalInfo = PersonalInfo(name: string, role: string, email: string,
                                       linkedin: string, github: string)

  datatype ExperienceEntry = ExperienceEntry(company: string, role: string, duration: string,
                                             points: seq<string>)

  /** `status` is read by the contact section's counts; no shipped project sets it. */
  datatype Project = Project(title: string, stack: string, status: Option<string>)

  /** `category`, `date` and `credentialId` are optional; no shipped certificate sets them. */
  datatype Certificate = Certificate(title: string, issuer: string, category: Option<string>,
                                     date: Option<string>, credentialId: Option<string>)

  const Info := PersonalInfo(
    "Harsh Tyagi",
    "Software Development Engineer (Full Stack | MERN | AI)",
    "tyagiharshit2539@gmail.com",
    "https://www.linkedin.com/in/harshtyagi25",
    "https://github.com/Harshit2539")

  /** The durations use an en dash and start with a month name. */
  const Experiences: seq<ExperienceEntry> := [
    ExperienceEntry("Redian Software Global Pvt. Ltd.", "Software Development Engineer",
                    "March 2025 \U{2013} Present", [
      "Built and maintained scalable web applications using PHP and Laravel with optimized database structures.",
      "Worked on AI-driven construction platforms including automated take-off systems and AI-powered tender prediction solutions.",
      "Integrated Python-based AI models, prompt engineering workflows, and full SaaS architecture with user management.",
      "Hands-on experience with React.js, Node.js, Express.js, MongoDB, SQL, Python (AI/ML), PHP, Laravel, Model Training & Integration."
    ]),
    ExperienceEntry("MaiVin Consulting Services Pvt. Ltd.", "Software Engineer Intern",
                    "July 2024 \U{2013} Dec 2024", [
      "Worked extensively with SQL, SAP Business One, and HANA SQL for enterprise data handling.",
      "Developed reports using Crystal Reports for business insights and analytics.",
      "Worked on backend data management and optimization tasks with full scale DBA tasks.",
      "Hands-on exposure to enterprise-grade database systems and reporting workflows."
    ])
  ]

  const Projects: seq<Project> := [
    Project("AI Takeoff & Estimating Software (SaaS)",
            "React, Node, Express, MongoDB, Python, FastAPI, YOLOv8, LLMs", None),
    Project("AI Tender Management System (DMS)",
            "React, Node, Express, MongoDB, Python, FastAPI, LLMs", None),
    Project("ABC HRMS", "PHP, Laravel, SQL, Vue.js, Tailwind CSS", None),
    Project("BSES CleanUp Management System",
            "PHP, Laravel, JavaScript, SQL, Vue.js, Bootstrap, AJAX", None)
  ]

  const Certificates: seq<Certificate> := [
    Certificate("Version Control", "Meta (Coursera)", None, None, None),
    Certificate("Java (4\U{2605} Coder)", "HackerRank", None, None, None),
    Certificate("Google Cloud Computing Foundations", "Google Cloud", None, None, None),
    Certificate("AWS Cloud Practitioner \U{2013} Foundations", "Amazon Web Services (AWS)", None, None, None)
  ]
}
